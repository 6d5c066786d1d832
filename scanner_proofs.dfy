/** What one course reconciliation guarantees, proved about the folds that
    specify it: the course's nodes afterwards are exactly the paths the walk
    observed (its directories and the files that passed the three checks),
    the other courses' nodes are untouched, file sizes match the disk,
    parent references agree with the tree, the counters count what changed,
    and a second scan of the same tree changes nothing. */
module ScannerProofs {
  import opened Common
  import opened FileNodeModel
  import opened ScannerService

  /** The directories of a walk, as a set. */
  function DirSet(ds: seq<EntryPath>): (r: set<Path>)
    ensures forall p :: p in r <==> p in ds
    decreases |ds|
  {
    if |ds| == 0 then {} else DirSet(ds[..|ds| - 1]) + {ds[|ds| - 1]}
  }

  /** The paths of the files that pass the three checks. */
  function AcceptedPaths(ctx: CourseScan, fs: seq<DiskFile>): set<Path>
    decreases |fs|
  {
    if |fs| == 0 then {}
    else
      var last := fs[|fs| - 1];
      AcceptedPaths(ctx, fs[..|fs| - 1]) + (if Accepted(ctx, last) then {last.path} else {})
  }

  /** The names the second pass rejects for their extension, in walk order:
      a file inside the course whose extension is refused. */
  function RejectedNames(ctx: CourseScan, fs: seq<DiskFile>): seq<string>
    decreases |fs|
  {
    if |fs| == 0 then []
    else
      var last := fs[|fs| - 1];
      RejectedNames(ctx, fs[..|fs| - 1]) + (if SafeFile(ctx, last) && !ExtensionOk(ctx, last) then [BaseName(last.path)] else [])
  }

  /** A path is accepted exactly when some file of the walk at that path
      passes the three checks. */
  lemma {:induction false} AcceptedPathsMembers(ctx: CourseScan, fs: seq<DiskFile>, p: Path)
    ensures p in AcceptedPaths(ctx, fs) <==> exists f :: f in fs && Accepted(ctx, f) && f.path == p
    decreases |fs|
  {
    if |fs| > 0 {
      var pre, last := fs[..|fs| - 1], fs[|fs| - 1];
      AcceptedPathsMembers(ctx, pre, p);
      assert fs == pre + [last];
      if exists f :: f in fs && Accepted(ctx, f) && f.path == p {
        var f :| f in fs && Accepted(ctx, f) && f.path == p;
        assert f in pre || f == last;
      }
    }
  }

  /** The state of a reconciliation that has not failed, relative to the
      store `s0` it started from. */
  ghost predicate Sound(ctx: CourseScan, s0: Store, w: Walk)
  {
    !w.failed && Framed(s0, w) && Owned(ctx, w) && Claimed(ctx, s0, w) && Kept(ctx, w) && Counted(ctx, w)
  }

  /** Paths not seen are as they were in `s0`. */
  ghost predicate Framed(s0: Store, w: Walk)
  {
    && (forall p :: p !in w.scanned ==> (p in w.store <==> p in s0))
    && (forall p :: p !in w.scanned && p in s0 ==> w.store[p] == s0[p])
  }

  /** Seen paths hold nodes of the course. */
  ghost predicate Owned(ctx: CourseScan, w: Walk)
  {
    forall p :: p in w.scanned ==> p in w.store && w.store[p].courseId == ctx.courseId
  }

  /** A seen path that was stored before was the course's own. */
  ghost predicate Claimed(ctx: CourseScan, s0: Store, w: Walk)
  {
    forall p :: p in w.scanned && p in s0 ==> p in ctx.existing
  }

  /** The course's earlier nodes are kept, at most with a new size. */
  ghost predicate Kept(ctx: CourseScan, w: Walk)
  {
    forall p :: p in ctx.existing ==> p in w.store && SameButSize(ctx.existing[p], w.store[p])
  }

  /** `added` counts the seen paths the course had no node for. */
  ghost predicate Counted(ctx: CourseScan, w: Walk)
  {
    w.added == |w.scanned - ctx.existing.Keys|
  }

  /** Two nodes that differ at most in their size. */
  predicate SameButSize(a: FileNode, b: FileNode)
  {
    a.(size := b.size) == b
  }

  /** The context of a scan of `s0`: `existing` is the course's part of it. */
  ghost predicate ContextOf(ctx: CourseScan, s0: Store)
  {
    && (forall p :: p in ctx.existing ==> p in s0 && ctx.existing[p] == s0[p] && s0[p].courseId == ctx.courseId)
    && (forall p :: p in s0 && s0[p].courseId == ctx.courseId ==> p in ctx.existing)
  }

  lemma ContextIsOf(courseId: nat, coursePath: Path, s0: Store, policy: Policy)
    ensures ContextOf(Context(courseId, coursePath, s0, policy), s0)
  {
  }

  lemma GrowByNew(scanned: set<Path>, existing: set<Path>, p: Path)
    requires p !in scanned && p !in existing
    ensures |(scanned + {p}) - existing| == |scanned - existing| + 1
  {
    assert (scanned + {p}) - existing == (scanned - existing) + {p};
  }

  lemma GrowByExisting(scanned: set<Path>, existing: set<Path>, p: Path)
    requires p in existing
    ensures (scanned + {p}) - existing == scanned - existing
  {
  }

  lemma {:induction false} DirStepSound(ctx: CourseScan, s0: Store, w: Walk, d: EntryPath)
    requires ContextOf(ctx, s0) && Sound(ctx, s0, w)
    requires !DirStep(ctx, w, d).failed
    ensures Sound(ctx, s0, DirStep(ctx, w, d))
  {
    var w' := DirStep(ctx, w, d);
    if d in ctx.existing {
      SoundAfterSee(ctx, s0, w, w', d);
    } else {
      assert d !in w.store;
      GrowByNew(w.scanned, ctx.existing.Keys, d);
      SoundAfterPut(ctx, s0, w, w', d);
    }
  }

  /** A file that fails a check changes nothing but the rejection list;
      one that passes them is `AcceptFile`. */
  lemma FileStepCases(ctx: CourseScan, w: Walk, f: DiskFile)
    requires !w.failed
    ensures var w' := FileStep(ctx, w, f);
      && (Accepted(ctx, f) ==> w' == AcceptFile(ctx, w, f))
      && (!Accepted(ctx, f) ==> w' == w.(extRejected := w'.extRejected))
  {
  }

  lemma {:induction false} AcceptFileSound(ctx: CourseScan, s0: Store, w: Walk, f: DiskFile)
    requires ContextOf(ctx, s0) && Sound(ctx, s0, w)
    requires !AcceptFile(ctx, w, f).failed
    ensures Sound(ctx, s0, AcceptFile(ctx, w, f))
  {
    var w' := AcceptFile(ctx, w, f);
    var p := f.path;
    if p in ctx.existing {
      var n := ctx.existing[p];
      if n.size != f.size {
        assert SameButSize(n, n.(size := f.size));
        GrowByExisting(w.scanned, ctx.existing.Keys, p);
        SoundAfterPut(ctx, s0, w, w', p);
      } else {
        SoundAfterSee(ctx, s0, w, w', p);
      }
    } else {
      assert p !in w.store;
      GrowByNew(w.scanned, ctx.existing.Keys, p);
      SoundAfterPut(ctx, s0, w, w', p);
    }
  }

  /** Seeing a path the course already has keeps the state sound. */
  lemma {:induction false} SoundAfterSee(ctx: CourseScan, s0: Store, w: Walk, w': Walk, p: Path)
    requires ContextOf(ctx, s0) && Sound(ctx, s0, w)
    requires p in ctx.existing
    requires !w'.failed && w'.store == w.store && w'.scanned == w.scanned + {p} && w'.added == w.added
    ensures Sound(ctx, s0, w')
  {
    GrowByExisting(w.scanned, ctx.existing.Keys, p);
  }

  /** Storing a node of the course at a path marks the path seen and keeps
      the state sound, provided the path was the course's or was free. */
  lemma {:induction false} SoundAfterPut(ctx: CourseScan, s0: Store, w: Walk, w': Walk, p: Path)
    requires Sound(ctx, s0, w)
    requires !w'.failed && p in w'.store && w'.store == w.store[p := w'.store[p]]
    requires w'.scanned == w.scanned + {p}
    requires w'.store[p].courseId == ctx.courseId
    requires p in ctx.existing ==> SameButSize(ctx.existing[p], w'.store[p])
    requires p !in ctx.existing ==> p !in w.store
    requires w'.added == |(w.scanned + {p}) - ctx.existing.Keys|
    ensures Sound(ctx, s0, w')
  {
    FramedAfterPut(s0, w, w', p);
    OwnedAfterPut(ctx, w, w', p);
    ClaimedAfterPut(ctx, s0, w, w', p);
    KeptAfterPut(ctx, w, w', p);
  }

  lemma FramedAfterPut(s0: Store, w: Walk, w': Walk, p: Path)
    requires Framed(s0, w)
    requires w'.scanned == w.scanned + {p} && p in w'.store && w'.store == w.store[p := w'.store[p]]
    ensures Framed(s0, w')
  {
  }

  lemma OwnedAfterPut(ctx: CourseScan, w: Walk, w': Walk, p: Path)
    requires Owned(ctx, w)
    requires w'.scanned == w.scanned + {p} && p in w'.store && w'.store == w.store[p := w'.store[p]]
    requires w'.store[p].courseId == ctx.courseId
    ensures Owned(ctx, w')
  {
  }

  lemma ClaimedAfterPut(ctx: CourseScan, s0: Store, w: Walk, w': Walk, p: Path)
    requires Claimed(ctx, s0, w) && Framed(s0, w) && Owned(ctx, w)
    requires w'.scanned == w.scanned + {p}
    requires p !in ctx.existing ==> p !in w.store
    ensures Claimed(ctx, s0, w')
  {
  }

  lemma KeptAfterPut(ctx: CourseScan, w: Walk, w': Walk, p: Path)
    requires Kept(ctx, w)
    requires p in w'.store && w'.store == w.store[p := w'.store[p]]
    requires p in ctx.existing ==> SameButSize(ctx.existing[p], w'.store[p])
    ensures Kept(ctx, w')
  {
  }

  lemma {:induction false} FileStepSound(ctx: CourseScan, s0: Store, w: Walk, f: DiskFile)
    requires ContextOf(ctx, s0) && Sound(ctx, s0, w)
    requires !FileStep(ctx, w, f).failed
    ensures Sound(ctx, s0, FileStep(ctx, w, f))
  {
    FileStepCases(ctx, w, f);
    if Accepted(ctx, f) {
      AcceptFileSound(ctx, s0, w, f);
    }
  }

  lemma {:induction false} DirPassSound(ctx: CourseScan, s0: Store, n0: nat, ds: seq<EntryPath>)
    requires ContextOf(ctx, s0)
    ensures var w := DirPass(ctx, StartWalk(s0, n0), ds); !w.failed ==> Sound(ctx, s0, w)
    decreases |ds|
  {
    if |ds| > 0 {
      var w := DirPass(ctx, StartWalk(s0, n0), ds[..|ds| - 1]);
      DirPassSound(ctx, s0, n0, ds[..|ds| - 1]);
      if !DirStep(ctx, w, ds[|ds| - 1]).failed {
        DirStepSound(ctx, s0, w, ds[|ds| - 1]);
      }
    }
  }

  /** The first pass sees exactly the directories, rejects nothing and
      updates nothing. */
  lemma {:induction false} DirPassShape(ctx: CourseScan, w0: Walk, ds: seq<EntryPath>)
    ensures var w := DirPass(ctx, w0, ds);
      && w.extRejected == w0.extRejected && w.updated == w0.updated
      && (!w.failed ==> w.scanned == w0.scanned + DirSet(ds))
    decreases |ds|
  {
    if |ds| > 0 {
      DirPassShape(ctx, w0, ds[..|ds| - 1]);
    }
  }

  lemma {:induction false} FilePassSound(ctx: CourseScan, s0: Store, w0: Walk, fs: seq<DiskFile>)
    requires ContextOf(ctx, s0) && Sound(ctx, s0, w0)
    ensures var w := FilePass(ctx, w0, fs); !w.failed ==> Sound(ctx, s0, w)
    decreases |fs|
  {
    if |fs| > 0 {
      var w := FilePass(ctx, w0, fs[..|fs| - 1]);
      FilePassSound(ctx, s0, w0, fs[..|fs| - 1]);
      FileStepKeepsFailed(ctx, w, fs[|fs| - 1]);
      if !FileStep(ctx, w, fs[|fs| - 1]).failed {
        FileStepSound(ctx, s0, w, fs[|fs| - 1]);
      }
    }
  }

  /** The second pass records exactly the extension rejections, even after
      a failed insertion, creates no folders and, when nothing failed, sees
      exactly the accepted files. */
  lemma {:induction false} FilePassShape(ctx: CourseScan, w0: Walk, fs: seq<DiskFile>)
    ensures var w := FilePass(ctx, w0, fs);
      && w.newFolders == w0.newFolders
      && w.extRejected == w0.extRejected + RejectedNames(ctx, fs)
      && (!w.failed ==> w.scanned == w0.scanned + AcceptedPaths(ctx, fs))
    decreases |fs|
  {
    if |fs| > 0 {
      var pre, f := fs[..|fs| - 1], fs[|fs| - 1];
      FilePassShape(ctx, w0, pre);
      var w := FilePass(ctx, w0, pre);
      assert FilePass(ctx, w0, fs) == FileStep(ctx, w, f);
      FileStepShape(ctx, w, f);
    }
  }

  lemma FileStepShape(ctx: CourseScan, w: Walk, f: DiskFile)
    ensures var w' := FileStep(ctx, w, f);
      && w'.newFolders == w.newFolders
      && w'.extRejected == w.extRejected + (if SafeFile(ctx, f) && !ExtensionOk(ctx, f) then [BaseName(f.path)] else [])
      && (!w'.failed ==> w'.scanned == w.scanned + (if Accepted(ctx, f) then {f.path} else {}))
  {
  }

  /** The paths a scan of `tree` observes: its directories and the files
      that pass the three checks. */
  function Observed(ctx: CourseScan, tree: CourseTree): set<Path>
  {
    DirSet(tree.dirs) + AcceptedPaths(ctx, tree.files)
  }

  /** The walk both passes produce, when neither failed, is sound and has
      seen exactly the observed paths. */
  lemma {:induction false} PassesSound(courseId: nat, coursePath: Path, store: Store, nextId: nat, tree: CourseTree, policy: Policy)
    ensures var ctx := Context(courseId, coursePath, store, policy);
      var w := FilePass(ctx, DirPass(ctx, StartWalk(store, nextId), tree.dirs), tree.files);
      !w.failed ==> Sound(ctx, store, w) && w.scanned == Observed(ctx, tree)
                    && w.extRejected == RejectedNames(ctx, tree.files)
  {
    PassesStaySound(courseId, coursePath, store, nextId, tree, policy);
    PassesShape(Context(courseId, coursePath, store, policy), StartWalk(store, nextId), tree);
  }

  lemma {:induction false} PassesStaySound(courseId: nat, coursePath: Path, store: Store, nextId: nat, tree: CourseTree, policy: Policy)
    ensures var ctx := Context(courseId, coursePath, store, policy);
      var w := FilePass(ctx, DirPass(ctx, StartWalk(store, nextId), tree.dirs), tree.files);
      !w.failed ==> Sound(ctx, store, w)
  {
    var ctx := Context(courseId, coursePath, store, policy);
    var wd := DirPass(ctx, StartWalk(store, nextId), tree.dirs);
    if wd.failed {
      FilePassFailedStays(ctx, wd, tree.files, 0);
    } else {
      ContextIsOf(courseId, coursePath, store, policy);
      DirPassSound(ctx, store, nextId, tree.dirs);
      FilePassSound(ctx, store, wd, tree.files);
    }
  }

  /** From a walk that has seen nothing and rejected nothing, the two
      passes see the observed paths and reject the rejected names. */
  lemma {:induction false} PassesShape(ctx: CourseScan, start: Walk, tree: CourseTree)
    requires start.scanned == {} && start.extRejected == []
    ensures var w := FilePass(ctx, DirPass(ctx, start, tree.dirs), tree.files);
      !w.failed ==> w.scanned == Observed(ctx, tree) && w.extRejected == RejectedNames(ctx, tree.files)
  {
    var wd := DirPass(ctx, start, tree.dirs);
    if wd.failed {
      FilePassFailedStays(ctx, wd, tree.files, 0);
    } else {
      DirPassShape(ctx, start, tree.dirs);
      FilePassShape(ctx, wd, tree.files);
      assert wd.scanned == DirSet(tree.dirs);
    }
  }

  /** Deleting the course's unseen nodes from a sound walk leaves exactly
      the seen paths as the course's nodes and every other node as it was
      in `s0`. */
  lemma {:induction false} DeleteUnseenSound(ctx: CourseScan, s0: Store, w: Walk)
    requires ContextOf(ctx, s0) && Sound(ctx, s0, w)
    ensures var r := w.store - (ctx.existing.Keys - w.scanned);
      && (forall p :: p in r && r[p].courseId == ctx.courseId <==> p in w.scanned)
      && (forall p :: p in s0 && s0[p].courseId != ctx.courseId ==> p in r && r[p] == s0[p])
      && (forall p :: p in r && r[p].courseId != ctx.courseId ==> p in s0)
  {
    var r := w.store - (ctx.existing.Keys - w.scanned);
    assert Framed(s0, w) && Owned(ctx, w) && Claimed(ctx, s0, w);
  }

  /** The reconciliation of one course. When it succeeds, the course's nodes
      are exactly the observed paths, every other course's node is as it
      was, no node of another course appears, `added` counts the observed
      paths the course had no node for and `removed` the course's nodes
      that were not observed. When it fails, the store and the id sequence
      are left as they were and the counters are zero. */
  lemma {:induction false} ScanCourseNodes(courseId: nat, coursePath: Path, store: Store, nextId: nat, tree: CourseTree, policy: Policy)
    ensures var ctx := Context(courseId, coursePath, store, policy);
      var r := ScanCourse(courseId, coursePath, store, nextId, tree, policy);
      var seen := Observed(ctx, tree);
      && (r.ok ==>
            && (forall p :: p in r.store && r.store[p].courseId == courseId <==> p in seen)
            && (forall p :: p in store && store[p].courseId != courseId ==> p in r.store && r.store[p] == store[p])
            && (forall p :: p in r.store && r.store[p].courseId != courseId ==> p in store)
            && r.added == |seen - ctx.existing.Keys|
            && r.removed == |ctx.existing.Keys - seen|
            && r.extRejected == RejectedNames(ctx, tree.files))
      && (!r.ok ==> r.store == store && r.nextId == nextId && r.added == r.updated == r.removed == 0)
  {
    var ctx := Context(courseId, coursePath, store, policy);
    var w := FilePass(ctx, DirPass(ctx, StartWalk(store, nextId), tree.dirs), tree.files);
    PassesSound(courseId, coursePath, store, nextId, tree, policy);
    if !w.failed {
      ContextIsOf(courseId, coursePath, store, policy);
      DeleteUnseenSound(ctx, store, w);
      assert Counted(ctx, w);
    }
  }

  /** As written, a reconciliation fails exactly when the intended one
      fails or removes a course node that a progress or last-viewed row
      refers to; otherwise the two agree. A failure leaves the store and
      the id sequence as they were, so scanning the same tree again fails
      the same way: the scan stays broken until the rows are gone. */
  lemma {:induction false} ScanCourseAsWrittenStuck(courseId: nat, coursePath: Path, store: Store, nextId: nat,
                                                    tree: CourseTree, policy: Policy, referenced: set<nat>)
    ensures var ctx := Context(courseId, coursePath, store, policy);
      var c := ScanCourse(courseId, coursePath, store, nextId, tree, policy);
      var r := ScanCourseAsWritten(courseId, coursePath, store, nextId, tree, policy, referenced);
      var removed := ctx.existing.Keys - Observed(ctx, tree);
      && (r.ok <==> c.ok && forall p :: p in removed ==> ctx.existing[p].id !in referenced)
      && (r.ok ==> r == c)
      && (!r.ok ==> && r.store == store && r.nextId == nextId && r.added == r.updated == r.removed == 0
                    && r.extRejected == c.extRejected
                    && ScanCourseAsWritten(courseId, coursePath, r.store, r.nextId, tree, policy, referenced) == r)
  {
    RemovedAreUnobserved(courseId, coursePath, store, nextId, tree, policy);
    ScanCourseNodes(courseId, coursePath, store, nextId, tree, policy);
  }

  /** After a successful reconciliation, a course node is gone exactly when
      the walk did not observe its path. */
  lemma {:induction false} RemovedAreUnobserved(courseId: nat, coursePath: Path, store: Store, nextId: nat,
                                                tree: CourseTree, policy: Policy)
    ensures var ctx := Context(courseId, coursePath, store, policy);
      var c := ScanCourse(courseId, coursePath, store, nextId, tree, policy);
      c.ok ==> forall p :: p in ctx.existing ==> (p !in c.store <==> p !in Observed(ctx, tree))
  {
    var ctx := Context(courseId, coursePath, store, policy);
    var c := ScanCourse(courseId, coursePath, store, nextId, tree, policy);
    var w := FilePass(ctx, DirPass(ctx, StartWalk(store, nextId), tree.dirs), tree.files);
    ScanCourseNodes(courseId, coursePath, store, nextId, tree, policy);
    PassesSound(courseId, coursePath, store, nextId, tree, policy);
    if c.ok {
      assert !w.failed && c.store == w.store - (ctx.existing.Keys - w.scanned);
      forall p | p in ctx.existing
        ensures p !in c.store <==> p !in Observed(ctx, tree)
      {
        if p in Observed(ctx, tree) {
          assert p in c.store && c.store[p].courseId == courseId;
        }
      }
    }
  }

  /** The input: a course whose one file, opened by a student, is deleted
      from disk. The intended scan removes its node; as written the scan
      fails, keeps the node, and fails again on the next scan. */
  lemma OpenedFileRemovedAsWritten(policy: Policy)
    ensures var p: Path := ["root", "Math", "Algebra", "notes.pdf"];
      var store := map[p := FileNode(5, 1, "notes.pdf", p, "pdf", None, false, Some(100))];
      var tree := CourseTree([], []);
      var c := ScanCourse(1, ["root", "Math", "Algebra"], store, 6, tree, policy);
      var r := ScanCourseAsWritten(1, ["root", "Math", "Algebra"], store, 6, tree, policy, {5});
      && c.ok && c.removed == 1 && p !in c.store
      && !r.ok && r.store == store
      && ScanCourseAsWritten(1, ["root", "Math", "Algebra"], r.store, r.nextId, tree, policy, {5}) == r
  {
    var p: Path := ["root", "Math", "Algebra", "notes.pdf"];
    var store := map[p := FileNode(5, 1, "notes.pdf", p, "pdf", None, false, Some(100))];
    assert CourseNodes(store, 1).Keys == {p};
  }

  /** No two files of the walk share a path. */
  predicate DistinctPaths(fs: seq<DiskFile>)
  {
    forall i, j :: 0 <= i < j < |fs| ==> fs[i].path != fs[j].path
  }

  /** The first pass never rewrites a node the course already had. */
  lemma {:induction false} DirPassKeepsExisting(ctx: CourseScan, w0: Walk, ds: seq<EntryPath>)
    requires forall p :: p in ctx.existing ==> p in w0.store && w0.store[p] == ctx.existing[p]
    ensures var w := DirPass(ctx, w0, ds);
      forall p :: p in ctx.existing ==> p in w.store && w.store[p] == ctx.existing[p]
    decreases |ds|
  {
    if |ds| > 0 {
      DirPassKeepsExisting(ctx, w0, ds[..|ds| - 1]);
    }
  }

  /** With distinct paths, the second pass leaves every accepted file's node
      with the size on disk, and every other node the course had as it
      was. */
  lemma {:induction false} FilePassSizes(ctx: CourseScan, w0: Walk, fs: seq<DiskFile>)
    requires DistinctPaths(fs)
    requires forall p :: p in ctx.existing ==> p in w0.store && w0.store[p] == ctx.existing[p]
    ensures var w := FilePass(ctx, w0, fs);
      !w.failed ==>
        && (forall f :: f in fs && Accepted(ctx, f) ==> f.path in w.store && w.store[f.path].size == f.size)
        && (forall p :: p in ctx.existing && p !in AcceptedPaths(ctx, fs) ==> p in w.store && w.store[p] == ctx.existing[p])
    decreases |fs|
  {
    if |fs| > 0 {
      var pre, f := fs[..|fs| - 1], fs[|fs| - 1];
      var w := FilePass(ctx, w0, pre);
      assert FilePass(ctx, w0, fs) == FileStep(ctx, w, f);
      assert DistinctPaths(pre);
      FilePassSizes(ctx, w0, pre);
      FileStepKeepsFailed(ctx, w, f);
      if !FileStep(ctx, w, f).failed {
        forall g | g in pre
          ensures g.path != f.path
        {
          var i :| 0 <= i < |pre| && pre[i] == g;
          assert fs[i] == g;
        }
        AcceptedPathsMembers(ctx, pre, f.path);
        FileStepSizes(ctx, w, f);
        forall g | g in fs && Accepted(ctx, g)
          ensures g.path in FileStep(ctx, w, f).store && FileStep(ctx, w, f).store[g.path].size == g.size
        {
          assert fs == pre + [f];
        }
      }
    }
  }

  /** One file of the second pass: an accepted file's node gets the size on
      disk, and every other stored node stays as it was. */
  lemma FileStepSizes(ctx: CourseScan, w: Walk, f: DiskFile)
    requires !FileStep(ctx, w, f).failed
    requires Accepted(ctx, f) && f.path in ctx.existing ==> f.path in w.store && w.store[f.path] == ctx.existing[f.path]
    ensures var w' := FileStep(ctx, w, f);
      && (Accepted(ctx, f) ==> f.path in w'.store && w'.store[f.path].size == f.size)
      && (forall p :: p in w.store && !(Accepted(ctx, f) && p == f.path) ==> p in w'.store && w'.store[p] == w.store[p])
  {
  }

  /** Only the course path and the policy decide whether a file passes the
      checks, not the nodes the course had. */
  lemma {:induction false} ChecksIgnoreExisting(ctx: CourseScan, ctx': CourseScan, fs: seq<DiskFile>)
    requires ctx'.coursePath == ctx.coursePath && ctx'.policy == ctx.policy
    ensures AcceptedPaths(ctx', fs) == AcceptedPaths(ctx, fs)
    ensures RejectedNames(ctx', fs) == RejectedNames(ctx, fs)
    ensures forall f :: Accepted(ctx', f) == Accepted(ctx, f)
    decreases |fs|
  {
    if |fs| > 0 {
      ChecksIgnoreExisting(ctx, ctx', fs[..|fs| - 1]);
    }
  }

  /** Directories the course already has only get marked seen. */
  lemma {:induction false} DirPassNoOp(ctx: CourseScan, w0: Walk, ds: seq<EntryPath>)
    requires !w0.failed && forall d :: d in ds ==> d in ctx.existing
    ensures DirPass(ctx, w0, ds) == w0.(scanned := w0.scanned + DirSet(ds))
    decreases |ds|
  {
    if |ds| > 0 {
      DirPassNoOp(ctx, w0, ds[..|ds| - 1]);
    }
  }

  /** Files the course already has with the size on disk only get marked
      seen; the extension rejections are recorded as always. */
  lemma {:induction false} FilePassNoOp(ctx: CourseScan, w0: Walk, fs: seq<DiskFile>)
    requires !w0.failed
    requires forall f :: f in fs && Accepted(ctx, f) ==> f.path in ctx.existing && ctx.existing[f.path].size == f.size
    ensures FilePass(ctx, w0, fs)
            == w0.(scanned := w0.scanned + AcceptedPaths(ctx, fs), extRejected := w0.extRejected + RejectedNames(ctx, fs))
    decreases |fs|
  {
    if |fs| > 0 {
      var pre, f := fs[..|fs| - 1], fs[|fs| - 1];
      assert forall g :: g in pre ==> g in fs;
      FilePassNoOp(ctx, w0, pre);
      var w := FilePass(ctx, w0, pre);
      assert FilePass(ctx, w0, fs) == FileStep(ctx, w, f);
      FileStepNoOp(ctx, w, f);
      var seen := if Accepted(ctx, f) then {f.path} else {};
      var named := if SafeFile(ctx, f) && !ExtensionOk(ctx, f) then [BaseName(f.path)] else [];
      assert AcceptedPaths(ctx, fs) == AcceptedPaths(ctx, pre) + seen;
      assert RejectedNames(ctx, fs) == RejectedNames(ctx, pre) + named;
      assert w0.scanned + AcceptedPaths(ctx, fs) == (w0.scanned + AcceptedPaths(ctx, pre)) + seen;
      assert w0.extRejected + RejectedNames(ctx, fs) == (w0.extRejected + RejectedNames(ctx, pre)) + named;
    }
  }

  lemma FileStepNoOp(ctx: CourseScan, w: Walk, f: DiskFile)
    requires !w.failed
    requires Accepted(ctx, f) ==> f.path in ctx.existing && ctx.existing[f.path].size == f.size
    ensures FileStep(ctx, w, f)
            == w.(scanned := w.scanned + (if Accepted(ctx, f) then {f.path} else {}),
                  extRejected := w.extRejected + (if SafeFile(ctx, f) && !ExtensionOk(ctx, f) then [BaseName(f.path)] else []))
  {
  }

  /** With distinct file paths, a successful scan leaves every accepted
      file's node with the size read from disk. */
  lemma {:induction false} ScanCourseSizes(courseId: nat, coursePath: Path, store: Store, nextId: nat, tree: CourseTree, policy: Policy)
    requires DistinctPaths(tree.files)
    ensures var ctx := Context(courseId, coursePath, store, policy);
      var r := ScanCourse(courseId, coursePath, store, nextId, tree, policy);
      r.ok ==> forall f :: f in tree.files && Accepted(ctx, f) ==> f.path in r.store && r.store[f.path].size == f.size
  {
    var ctx := Context(courseId, coursePath, store, policy);
    var start := StartWalk(store, nextId);
    var wd := DirPass(ctx, start, tree.dirs);
    var w := FilePass(ctx, wd, tree.files);
    if !w.failed {
      DirPassKeepsExisting(ctx, start, tree.dirs);
      FilePassSizes(ctx, wd, tree.files);
      PassesSound(courseId, coursePath, store, nextId, tree, policy);
      forall f | f in tree.files && Accepted(ctx, f)
        ensures f.path in w.scanned
      {
        AcceptedPathsMembers(ctx, tree.files, f.path);
      }
    }
  }

  /** A store whose course nodes are exactly the observed paths, with the
      sizes on disk, is a fixed point of the scan. */
  lemma {:induction false} ScanCourseFixedPoint(courseId: nat, coursePath: Path, store: Store, nextId: nat, tree: CourseTree, policy: Policy)
    requires var ctx := Context(courseId, coursePath, store, policy);
      && ctx.existing.Keys == Observed(ctx, tree)
      && forall f :: f in tree.files && Accepted(ctx, f) ==> f.path in store && store[f.path].size == f.size
    ensures var ctx := Context(courseId, coursePath, store, policy);
      ScanCourse(courseId, coursePath, store, nextId, tree, policy)
        == CourseResult(store, nextId, 0, 0, 0, RejectedNames(ctx, tree.files), true)
  {
    var ctx := Context(courseId, coursePath, store, policy);
    forall f | f in tree.files && Accepted(ctx, f)
      ensures f.path in ctx.existing && ctx.existing[f.path].size == f.size
    {
      AcceptedPathsMembers(ctx, tree.files, f.path);
    }
    PassesNoOp(ctx, StartWalk(store, nextId), tree);
    DirPassNoOp(ctx, StartWalk(store, nextId), tree.dirs);
    assert ctx.existing.Keys - Observed(ctx, tree) == {};
    assert store - {} == store;
  }

  /** When the course's nodes are exactly the observed paths, with the
      sizes on disk, both passes only mark the paths seen and record the
      extension rejections. */
  lemma {:induction false} PassesNoOp(ctx: CourseScan, w0: Walk, tree: CourseTree)
    requires !w0.failed && w0.scanned == {} && w0.extRejected == []
    requires ctx.existing.Keys == Observed(ctx, tree)
    requires forall f :: f in tree.files && Accepted(ctx, f) ==> f.path in ctx.existing && ctx.existing[f.path].size == f.size
    ensures FilePass(ctx, DirPass(ctx, w0, tree.dirs), tree.files)
            == w0.(scanned := Observed(ctx, tree), extRejected := RejectedNames(ctx, tree.files))
  {
    DirPassNoOp(ctx, w0, tree.dirs);
    var wd := DirPass(ctx, w0, tree.dirs);
    FilePassNoOp(ctx, wd, tree.files);
    assert wd.scanned == DirSet(tree.dirs);
  }

  /** Idempotence: scanning the same tree again, from the store and id
      sequence the first scan left, adds, updates and removes nothing and
      leaves the store and the id sequence as they are. */
  lemma {:induction false} ScanCourseIdempotent(courseId: nat, coursePath: Path, store: Store, nextId: nat, tree: CourseTree, policy: Policy)
    requires DistinctPaths(tree.files)
    requires ScanCourse(courseId, coursePath, store, nextId, tree, policy).ok
    ensures var r := ScanCourse(courseId, coursePath, store, nextId, tree, policy);
      ScanCourse(courseId, coursePath, r.store, r.nextId, tree, policy)
        == CourseResult(r.store, r.nextId, 0, 0, 0, r.extRejected, true)
  {
    var r := ScanCourse(courseId, coursePath, store, nextId, tree, policy);
    RescanPremises(courseId, coursePath, store, nextId, tree, policy);
    ScanCourseFixedPoint(courseId, coursePath, r.store, r.nextId, tree, policy);
  }

  /** After a successful scan, the course's nodes are exactly the observed
      paths and every accepted file's node has the file's size; the names
      rejected are those a second scan rejects. */
  lemma {:induction false} RescanPremises(courseId: nat, coursePath: Path, store: Store, nextId: nat, tree: CourseTree, policy: Policy)
    requires DistinctPaths(tree.files)
    requires ScanCourse(courseId, coursePath, store, nextId, tree, policy).ok
    ensures var r := ScanCourse(courseId, coursePath, store, nextId, tree, policy);
      var ctx2 := Context(courseId, coursePath, r.store, policy);
      && ctx2.existing.Keys == Observed(ctx2, tree)
      && (forall f :: f in tree.files && Accepted(ctx2, f) ==> f.path in r.store && r.store[f.path].size == f.size)
      && r.extRejected == RejectedNames(ctx2, tree.files)
  {
    RescanKeys(courseId, coursePath, store, nextId, tree, policy);
    RescanSizes(courseId, coursePath, store, nextId, tree, policy);
  }

  lemma {:induction false} RescanKeys(courseId: nat, coursePath: Path, store: Store, nextId: nat, tree: CourseTree, policy: Policy)
    requires ScanCourse(courseId, coursePath, store, nextId, tree, policy).ok
    ensures var r := ScanCourse(courseId, coursePath, store, nextId, tree, policy);
      var ctx2 := Context(courseId, coursePath, r.store, policy);
      ctx2.existing.Keys == Observed(ctx2, tree) && r.extRejected == RejectedNames(ctx2, tree.files)
  {
    var ctx := Context(courseId, coursePath, store, policy);
    var r := ScanCourse(courseId, coursePath, store, nextId, tree, policy);
    ScanCourseNodes(courseId, coursePath, store, nextId, tree, policy);
    var ctx2 := Context(courseId, coursePath, r.store, policy);
    ChecksIgnoreExisting(ctx, ctx2, tree.files);
    assert ctx2.existing.Keys == Observed(ctx2, tree);
  }

  lemma {:induction false} RescanSizes(courseId: nat, coursePath: Path, store: Store, nextId: nat, tree: CourseTree, policy: Policy)
    requires DistinctPaths(tree.files)
    ensures var r := ScanCourse(courseId, coursePath, store, nextId, tree, policy);
      var ctx2 := Context(courseId, coursePath, r.store, policy);
      r.ok ==> forall f :: f in tree.files && Accepted(ctx2, f) ==> f.path in r.store && r.store[f.path].size == f.size
  {
    var r := ScanCourse(courseId, coursePath, store, nextId, tree, policy);
    ScanCourseSizes(courseId, coursePath, store, nextId, tree, policy);
    ChecksIgnoreExisting(Context(courseId, coursePath, store, policy), Context(courseId, coursePath, r.store, policy), tree.files);
  }

  /** Every seen node is linked to its parent directory's node. */
  ghost predicate Linked(ctx: CourseScan, w: Walk)
  {
    forall p :: p in w.scanned && p in w.store ==> LinkedAt(w.store, ctx.coursePath, p)
  }

  /** The folders created so far are stored under the ids recorded. */
  ghost predicate FolderIds(w: Walk)
  {
    forall d :: d in w.newFolders ==> d in w.store && w.store[d].id == w.newFolders[d]
  }

  /** Each directory in `ds` has a node the course had, or one created in
      this scan. */
  ghost predicate DirsKnown(ctx: CourseScan, w: Walk, ds: set<Path>)
  {
    forall d :: d in ds ==> d in ctx.existing || d in w.newFolders
  }

  /** Every node of `s` is still in `s'`, under the same id. */
  ghost predicate IdsStable(s: Store, s': Store)
  {
    forall q :: q in s ==> q in s' && s'[q].id == s[q].id
  }

  lemma SoundIdsStable(ctx: CourseScan, s0: Store, w: Walk)
    requires ContextOf(ctx, s0) && Sound(ctx, s0, w)
    ensures IdsStable(s0, w.store)
  {
    assert Framed(s0, w) && Claimed(ctx, s0, w) && Kept(ctx, w);
  }

  /** A link survives a change of store that keeps the node's parent
      reference and the id at its parent path. */
  lemma LinkedMoves(s: Store, s': Store, coursePath: Path, p: Path)
    requires p in s && p in s' && LinkedAt(s, coursePath, p)
    requires s'[p].parentId == s[p].parentId
    requires ParentOf(p) != coursePath ==> ParentOf(p) in s' && s'[ParentOf(p)].id == s[ParentOf(p)].id
    ensures LinkedAt(s', coursePath, p)
  {
  }

  /** Storing a linked node at `p`, without changing the id already stored
      there, keeps every seen node linked. */
  lemma {:induction false} LinkedAfterPut(ctx: CourseScan, w: Walk, w': Walk, p: Path)
    requires Linked(ctx, w)
    requires p in w'.store && w'.store == w.store[p := w'.store[p]] && w'.scanned == w.scanned + {p}
    requires p in w.store ==> w'.store[p].id == w.store[p].id
    requires LinkedAt(w'.store, ctx.coursePath, p)
    ensures Linked(ctx, w')
  {
    forall q | q in w'.scanned && q in w'.store
      ensures LinkedAt(w'.store, ctx.coursePath, q)
    {
      if q != p {
        LinkedMoves(w.store, w'.store, ctx.coursePath, q);
      }
    }
  }

  /** A node the course had keeps the link it had in `s0`. */
  lemma ExistingStaysLinked(ctx: CourseScan, s0: Store, w: Walk, p: Path)
    requires ContextOf(ctx, s0) && Sound(ctx, s0, w)
    requires CourseLinked(s0, ctx.courseId, ctx.coursePath)
    requires p in ctx.existing
    ensures p in w.store && LinkedAt(w.store, ctx.coursePath, p)
  {
    SoundIdsStable(ctx, s0, w);
    assert Kept(ctx, w);
    assert LinkedAt(s0, ctx.coursePath, p);
    LinkedMoves(s0, w.store, ctx.coursePath, p);
  }

  /** The parent reference a new node gets is its parent directory's id,
      once that directory is known. */
  lemma ParentForLinks(ctx: CourseScan, s0: Store, w: Walk, w': Walk, p: EntryPath, ds: set<Path>)
    requires ContextOf(ctx, s0) && Sound(ctx, s0, w) && FolderIds(w) && DirsKnown(ctx, w, ds)
    requires IsBelow(p, ctx.coursePath) && (ParentOf(p) == ctx.coursePath || ParentOf(p) in ds)
    requires p !in w.store && p in w'.store && w'.store == w.store[p := w'.store[p]]
    requires w'.store[p].parentId == ParentFor(ctx, w.newFolders, p)
    ensures LinkedAt(w'.store, ctx.coursePath, p)
  {
    assert Kept(ctx, w);
  }

  lemma {:induction false} DirStepLinked(ctx: CourseScan, s0: Store, w: Walk, d: EntryPath, ds: set<Path>)
    requires ContextOf(ctx, s0) && Sound(ctx, s0, w) && CourseLinked(s0, ctx.courseId, ctx.coursePath)
    requires Linked(ctx, w) && FolderIds(w) && DirsKnown(ctx, w, ds)
    requires IsBelow(d, ctx.coursePath) && (ParentOf(d) == ctx.coursePath || ParentOf(d) in ds)
    requires !DirStep(ctx, w, d).failed
    ensures Linked(ctx, DirStep(ctx, w, d))
  {
    var w' := DirStep(ctx, w, d);
    if d in ctx.existing {
      ExistingStaysLinked(ctx, s0, w, d);
      LinkedAfterPut(ctx, w, w', d);
    } else {
      assert d !in w.store;
      ParentForLinks(ctx, s0, w, w', d, ds);
      LinkedAfterPut(ctx, w, w', d);
    }
  }

  lemma {:induction false} DirStepFolders(ctx: CourseScan, w: Walk, d: EntryPath, ds: set<Path>)
    requires FolderIds(w) && DirsKnown(ctx, w, ds)
    requires !DirStep(ctx, w, d).failed
    ensures var w' := DirStep(ctx, w, d);
      FolderIds(w') && DirsKnown(ctx, w', ds + {d})
  {
    if d !in ctx.existing {
      assert d !in w.store;
    }
  }

  lemma {:induction false} AcceptFileLinked(ctx: CourseScan, s0: Store, w: Walk, f: DiskFile, ds: set<Path>)
    requires ContextOf(ctx, s0) && Sound(ctx, s0, w) && CourseLinked(s0, ctx.courseId, ctx.coursePath)
    requires Linked(ctx, w) && FolderIds(w) && DirsKnown(ctx, w, ds)
    requires IsBelow(f.path, ctx.coursePath) && (ParentOf(f.path) == ctx.coursePath || ParentOf(f.path) in ds)
    requires !AcceptFile(ctx, w, f).failed
    ensures Linked(ctx, AcceptFile(ctx, w, f))
  {
    var w' := AcceptFile(ctx, w, f);
    var p := f.path;
    if p in ctx.existing {
      AcceptExistingLinked(ctx, s0, w, f);
    } else {
      assert p !in w.store;
      ParentForLinks(ctx, s0, w, w', p, ds);
      LinkedAfterPut(ctx, w, w', p);
    }
  }

  lemma {:induction false} AcceptExistingLinked(ctx: CourseScan, s0: Store, w: Walk, f: DiskFile)
    requires ContextOf(ctx, s0) && Sound(ctx, s0, w) && CourseLinked(s0, ctx.courseId, ctx.coursePath)
    requires Linked(ctx, w) && f.path in ctx.existing
    ensures Linked(ctx, AcceptFile(ctx, w, f))
  {
    var w' := AcceptFile(ctx, w, f);
    var p := f.path;
    ExistingStaysLinked(ctx, s0, w, p);
    AcceptExistingStore(ctx, w, f);
    assert w'.store[p].parentId == w.store[p].parentId && w'.store[p].id == w.store[p].id by {
      assert Kept(ctx, w);
    }
    LinkedMoves(w.store, w'.store, ctx.coursePath, p);
    LinkedAfterPut(ctx, w, w', p);
  }

  /** A file the course already had is only marked seen, and its node at
      most gets the file's size. */
  lemma AcceptExistingStore(ctx: CourseScan, w: Walk, f: DiskFile)
    requires f.path in ctx.existing && f.path in w.store
    ensures var w' := AcceptFile(ctx, w, f);
      && f.path in w'.store && w'.store == w.store[f.path := w'.store[f.path]]
      && (w'.store[f.path] == w.store[f.path] || w'.store[f.path] == ctx.existing[f.path].(size := f.size))
  {
  }

  lemma {:induction false} AcceptFileFolders(ctx: CourseScan, w: Walk, f: DiskFile, ds: set<Path>)
    requires Kept(ctx, w) && FolderIds(w) && DirsKnown(ctx, w, ds)
    requires !AcceptFile(ctx, w, f).failed
    ensures var w' := AcceptFile(ctx, w, f);
      FolderIds(w') && DirsKnown(ctx, w', ds)
  {
  }

  /** The directories of a walk lie below the course and each comes after
      its parent, unless its parent is the course directory. */
  predicate DirsOrdered(ds: seq<EntryPath>, coursePath: Path)
  {
    forall i :: 0 <= i < |ds| ==>
      IsBelow(ds[i], coursePath) && (ParentOf(ds[i]) == coursePath || ParentOf(ds[i]) in ds[..i])
  }

  lemma {:induction false} DirPassFolders(ctx: CourseScan, s0: Store, n0: nat, ds: seq<EntryPath>)
    ensures var w := DirPass(ctx, StartWalk(s0, n0), ds);
      !w.failed ==> FolderIds(w) && DirsKnown(ctx, w, DirSet(ds))
    decreases |ds|
  {
    if |ds| > 0 {
      var pre, d := ds[..|ds| - 1], ds[|ds| - 1];
      DirPassFolders(ctx, s0, n0, pre);
      var w := DirPass(ctx, StartWalk(s0, n0), pre);
      if !DirStep(ctx, w, d).failed {
        DirStepFolders(ctx, w, d, DirSet(pre));
      }
    }
  }

  lemma {:induction false} DirPassLinked(ctx: CourseScan, s0: Store, n0: nat, ds: seq<EntryPath>)
    requires ContextOf(ctx, s0) && CourseLinked(s0, ctx.courseId, ctx.coursePath)
    requires DirsOrdered(ds, ctx.coursePath)
    ensures var w := DirPass(ctx, StartWalk(s0, n0), ds); !w.failed ==> Linked(ctx, w)
    decreases |ds|
  {
    if |ds| > 0 {
      var pre, d := ds[..|ds| - 1], ds[|ds| - 1];
      assert DirsOrdered(pre, ctx.coursePath) by {
        forall i | 0 <= i < |pre|
          ensures ParentOf(pre[i]) == ctx.coursePath || ParentOf(pre[i]) in pre[..i]
        {
          assert pre[..i] == ds[..i];
        }
      }
      DirPassLinked(ctx, s0, n0, pre);
      var w := DirPass(ctx, StartWalk(s0, n0), pre);
      if !DirStep(ctx, w, d).failed {
        DirPassSound(ctx, s0, n0, pre);
        DirPassFolders(ctx, s0, n0, pre);
        DirStepLinked(ctx, s0, w, d, DirSet(pre));
      }
    }
  }

  lemma {:induction false} FilePassFolders(ctx: CourseScan, s0: Store, w0: Walk, fs: seq<DiskFile>, ds: set<Path>)
    requires ContextOf(ctx, s0) && Sound(ctx, s0, w0) && FolderIds(w0) && DirsKnown(ctx, w0, ds)
    ensures var w := FilePass(ctx, w0, fs); !w.failed ==> FolderIds(w) && DirsKnown(ctx, w, ds)
    decreases |fs|
  {
    if |fs| > 0 {
      var pre, f := fs[..|fs| - 1], fs[|fs| - 1];
      FilePassFolders(ctx, s0, w0, pre, ds);
      var w := FilePass(ctx, w0, pre);
      FileStepKeepsFailed(ctx, w, f);
      if !FileStep(ctx, w, f).failed {
        FilePassSound(ctx, s0, w0, pre);
        FileStepCases(ctx, w, f);
        if Accepted(ctx, f) {
          AcceptFileFolders(ctx, w, f, ds);
        }
      }
    }
  }

  lemma {:induction false} FilePassLinked(ctx: CourseScan, s0: Store, w0: Walk, fs: seq<DiskFile>, ds: set<Path>)
    requires ContextOf(ctx, s0) && CourseLinked(s0, ctx.courseId, ctx.coursePath)
    requires Sound(ctx, s0, w0) && Linked(ctx, w0) && FolderIds(w0) && DirsKnown(ctx, w0, ds)
    requires forall f :: f in fs ==>
      IsBelow(f.path, ctx.coursePath) && (ParentOf(f.path) == ctx.coursePath || ParentOf(f.path) in ds)
    ensures var w := FilePass(ctx, w0, fs); !w.failed ==> Linked(ctx, w)
    decreases |fs|
  {
    if |fs| > 0 {
      var pre, f := fs[..|fs| - 1], fs[|fs| - 1];
      assert forall g :: g in pre ==> g in fs;
      FilePassLinked(ctx, s0, w0, pre, ds);
      var w := FilePass(ctx, w0, pre);
      FileStepKeepsFailed(ctx, w, f);
      if !FileStep(ctx, w, f).failed {
        FilePassSound(ctx, s0, w0, pre);
        FilePassFolders(ctx, s0, w0, pre, ds);
        FileStepCases(ctx, w, f);
        if Accepted(ctx, f) {
          AcceptFileLinked(ctx, s0, w, f, ds);
        }
      }
    }
  }

  /** Parent links: when the course's nodes were linked to their parent
      directories' nodes before, and the walk is a walk of the course
      directory, every node of the course is linked afterwards. A new node
      directly under the course has no parent reference; any other node
      refers to the node stored at its parent path. */
  lemma {:induction false} ScanCourseLinked(courseId: nat, coursePath: Path, store: Store, nextId: nat, tree: CourseTree, policy: Policy)
    requires WalkOf(tree, coursePath)
    requires CourseLinked(store, courseId, coursePath)
    ensures var r := ScanCourse(courseId, coursePath, store, nextId, tree, policy);
      r.ok ==> CourseLinked(r.store, courseId, coursePath)
  {
    var ctx := Context(courseId, coursePath, store, policy);
    var w := FilePass(ctx, DirPass(ctx, StartWalk(store, nextId), tree.dirs), tree.files);
    if !w.failed {
      ContextIsOf(courseId, coursePath, store, policy);
      WalkLinked(ctx, store, nextId, tree);
      PassesSound(courseId, coursePath, store, nextId, tree, policy);
      DeleteUnseenLinked(ctx, store, w, tree);
    }
  }

  /** The walk both passes produce, when neither failed, has its seen
      paths linked. */
  lemma {:induction false} WalkLinked(ctx: CourseScan, store: Store, nextId: nat, tree: CourseTree)
    requires ContextOf(ctx, store) && WalkOf(tree, ctx.coursePath)
    requires CourseLinked(store, ctx.courseId, ctx.coursePath)
    ensures var w := FilePass(ctx, DirPass(ctx, StartWalk(store, nextId), tree.dirs), tree.files);
      !w.failed ==> Linked(ctx, w)
  {
    var start := StartWalk(store, nextId);
    var wd := DirPass(ctx, start, tree.dirs);
    var w := FilePass(ctx, wd, tree.files);
    if !w.failed {
      DirPassSound(ctx, store, nextId, tree.dirs);
      DirPassShape(ctx, start, tree.dirs);
      DirPassLinked(ctx, store, nextId, tree.dirs);
      DirPassFolders(ctx, store, nextId, tree.dirs);
      forall f | f in tree.files
        ensures IsBelow(f.path, ctx.coursePath) && (ParentOf(f.path) == ctx.coursePath || ParentOf(f.path) in DirSet(tree.dirs))
      {
        var i :| 0 <= i < |tree.files| && tree.files[i] == f;
      }
      FilePassLinked(ctx, store, wd, tree.files, DirSet(tree.dirs));
    }
  }

  /** Deleting the unseen nodes of a linked walk that saw the observed
      paths leaves every node of the course linked. */
  lemma DeleteUnseenLinked(ctx: CourseScan, s0: Store, w: Walk, tree: CourseTree)
    requires ContextOf(ctx, s0) && WalkOf(tree, ctx.coursePath)
    requires Sound(ctx, s0, w) && Linked(ctx, w) && w.scanned == Observed(ctx, tree)
    ensures CourseLinked(w.store - (ctx.existing.Keys - w.scanned), ctx.courseId, ctx.coursePath)
  {
    var r := w.store - (ctx.existing.Keys - w.scanned);
    DeleteUnseenSound(ctx, s0, w);
    forall p | p in r && r[p].courseId == ctx.courseId
      ensures LinkedAt(r, ctx.coursePath, p)
    {
      ObservedParent(ctx, tree, p);
      LinkedMoves(w.store, r, ctx.coursePath, p);
    }
  }

  /** An observed path lies below the course, and its parent is the course
      directory or one of the walk's directories. */
  lemma ObservedParent(ctx: CourseScan, tree: CourseTree, p: Path)
    requires WalkOf(tree, ctx.coursePath) && p in Observed(ctx, tree)
    ensures IsBelow(p, ctx.coursePath)
    ensures ParentOf(p) == ctx.coursePath || ParentOf(p) in DirSet(tree.dirs)
  {
    if p in DirSet(tree.dirs) {
      var i :| 0 <= i < |tree.dirs| && tree.dirs[i] == p;
      assert ParentOf(p) in tree.dirs[..i] ==> ParentOf(p) in tree.dirs;
    } else {
      AcceptedPathsMembers(ctx, tree.files, p);
      var f :| f in tree.files && Accepted(ctx, f) && f.path == p;
      var i :| 0 <= i < |tree.files| && tree.files[i] == f;
    }
  }

  /** The shape of a node the scan created at `p`: its path, name and
      course, an id handed out during the scan, and either a folder node
      (type "folder", a directory, no size) for a directory of the walk, or
      a file node typed by its name. */
  ghost predicate NewNode(ctx: CourseScan, p: Path, n: FileNode, lo: nat, hi: nat, dirs: set<Path>)
  {
    && |p| > 0 && n.path == p && n.name == BaseName(p) && n.courseId == ctx.courseId
    && lo <= n.id < hi
    && (n.isDirectory <==> p in dirs)
    && (n.isDirectory ==> n.fileType == FolderType && n.size == None)
    && (!n.isDirectory ==> n.fileType == ctx.policy.fileType(BaseName(p)))
  }

  /** The nodes created since `s0` have the shape above and distinct ids. */
  ghost predicate Fresh(ctx: CourseScan, s0: Store, n0: nat, w: Walk, dirs: set<Path>)
  {
    && n0 <= w.nextId
    && (forall p :: p in w.store && p !in s0 ==> NewNode(ctx, p, w.store[p], n0, w.nextId, dirs))
    && (forall p, q :: p in w.store && p !in s0 && q in w.store && q !in s0 && p != q ==>
          w.store[p].id != w.store[q].id)
  }

  /** Storing a new node under the next id keeps `Fresh`. */
  lemma FreshAfterNew(ctx: CourseScan, s0: Store, n0: nat, w: Walk, w': Walk, p: Path, dirs: set<Path>)
    requires Fresh(ctx, s0, n0, w, dirs) && p !in w.store
    requires p in w'.store && w'.store == w.store[p := w'.store[p]] && w'.nextId == w.nextId + 1
    requires w'.store[p].id == w.nextId && NewNode(ctx, p, w'.store[p], n0, w'.nextId, dirs)
    ensures Fresh(ctx, s0, n0, w', dirs)
  {
  }

  lemma {:induction false} DirStepFresh(ctx: CourseScan, s0: Store, n0: nat, w: Walk, d: EntryPath, dirs: set<Path>)
    requires ContextOf(ctx, s0) && Sound(ctx, s0, w) && Fresh(ctx, s0, n0, w, dirs)
    requires d in dirs && !DirStep(ctx, w, d).failed
    ensures Fresh(ctx, s0, n0, DirStep(ctx, w, d), dirs)
  {
    if d !in ctx.existing {
      assert d !in w.store;
      FreshAfterNew(ctx, s0, n0, w, DirStep(ctx, w, d), d, dirs);
    }
  }

  /** Overwriting a node the store started with keeps `Fresh`. */
  lemma FreshAfterOld(ctx: CourseScan, s0: Store, n0: nat, w: Walk, w': Walk, p: Path, dirs: set<Path>)
    requires Fresh(ctx, s0, n0, w, dirs) && p in s0
    requires w'.store == w.store || (p in w'.store && w'.store == w.store[p := w'.store[p]])
    requires w'.nextId == w.nextId
    ensures Fresh(ctx, s0, n0, w', dirs)
  {
  }

  lemma {:induction false} AcceptFileFresh(ctx: CourseScan, s0: Store, n0: nat, w: Walk, f: DiskFile, dirs: set<Path>)
    requires ContextOf(ctx, s0) && Fresh(ctx, s0, n0, w, dirs)
    requires FolderIds(w) && DirsKnown(ctx, w, dirs)
    requires !AcceptFile(ctx, w, f).failed
    ensures Fresh(ctx, s0, n0, AcceptFile(ctx, w, f), dirs)
  {
    var p := f.path;
    var w' := AcceptFile(ctx, w, f);
    if p !in ctx.existing {
      assert p !in w.store;
      assert p !in dirs;
      FreshAfterNew(ctx, s0, n0, w, w', p, dirs);
    } else {
      FreshAfterOld(ctx, s0, n0, w, w', p, dirs);
    }
  }

  lemma {:induction false} DirPassFresh(ctx: CourseScan, s0: Store, n0: nat, ds: seq<EntryPath>, dirs: set<Path>)
    requires ContextOf(ctx, s0)
    requires forall d :: d in ds ==> d in dirs
    ensures var w := DirPass(ctx, StartWalk(s0, n0), ds); !w.failed ==> Fresh(ctx, s0, n0, w, dirs)
    decreases |ds|
  {
    if |ds| > 0 {
      var pre, d := ds[..|ds| - 1], ds[|ds| - 1];
      assert forall e :: e in pre ==> e in ds;
      DirPassFresh(ctx, s0, n0, pre, dirs);
      var w := DirPass(ctx, StartWalk(s0, n0), pre);
      if !DirStep(ctx, w, d).failed {
        DirPassSound(ctx, s0, n0, pre);
        DirStepFresh(ctx, s0, n0, w, d, dirs);
      }
    }
  }

  lemma {:induction false} FilePassFresh(ctx: CourseScan, s0: Store, n0: nat, w0: Walk, fs: seq<DiskFile>, dirs: set<Path>)
    requires ContextOf(ctx, s0) && Sound(ctx, s0, w0) && Fresh(ctx, s0, n0, w0, dirs)
    requires FolderIds(w0) && DirsKnown(ctx, w0, dirs)
    ensures var w := FilePass(ctx, w0, fs); !w.failed ==> Fresh(ctx, s0, n0, w, dirs)
    decreases |fs|
  {
    if |fs| > 0 {
      var pre, f := fs[..|fs| - 1], fs[|fs| - 1];
      FilePassFresh(ctx, s0, n0, w0, pre, dirs);
      var w := FilePass(ctx, w0, pre);
      FileStepKeepsFailed(ctx, w, f);
      if !FileStep(ctx, w, f).failed {
        FilePassSound(ctx, s0, w0, pre);
        FilePassFolders(ctx, s0, w0, pre, dirs);
        FileStepCases(ctx, w, f);
        if Accepted(ctx, f) {
          AcceptFileFresh(ctx, s0, n0, w, f, dirs);
        }
      }
    }
  }

  /** Deleting unseen nodes keeps the created nodes' shape, and ids remain
      a primary key below the next free id. */
  lemma DeleteUnseenFresh(ctx: CourseScan, s0: Store, n0: nat, w: Walk, dirs: set<Path>)
    requires ContextOf(ctx, s0) && Sound(ctx, s0, w) && Fresh(ctx, s0, n0, w, dirs)
    ensures var r := w.store - (ctx.existing.Keys - w.scanned);
      && (forall p :: p in r && p !in s0 ==> NewNode(ctx, p, r[p], n0, w.nextId, dirs))
      && (UniqueIds(s0) && IdsBelow(s0, n0) ==> UniqueIds(r) && IdsBelow(r, w.nextId))
  {
    if UniqueIds(s0) && IdsBelow(s0, n0) {
      SoundIdsStable(ctx, s0, w);
      WalkIds(ctx, s0, n0, w, dirs);
      SubStoreIds(w.store, ctx.existing.Keys - w.scanned, w.nextId);
    }
  }

  /** The walk's ids are a primary key below its next free id: the nodes
      of `s0` keep their ids, all below `n0`, and the new ones are distinct
      and from `n0` on. */
  lemma WalkIds(ctx: CourseScan, s0: Store, n0: nat, w: Walk, dirs: set<Path>)
    requires IdsStable(s0, w.store) && Fresh(ctx, s0, n0, w, dirs)
    requires UniqueIds(s0) && IdsBelow(s0, n0)
    ensures UniqueIds(w.store) && IdsBelow(w.store, w.nextId)
  {
    forall p, q | p in w.store && q in w.store && p != q
      ensures w.store[p].id != w.store[q].id
    {
      if p in s0 && q in s0 {
        assert s0[p].id != s0[q].id;
      }
    }
  }

  /** Removing keys keeps ids a primary key below the same bound. */
  lemma SubStoreIds(s: Store, gone: set<Path>, bound: nat)
    requires UniqueIds(s) && IdsBelow(s, bound)
    ensures UniqueIds(s - gone) && IdsBelow(s - gone, bound)
  {
  }

  /** The nodes a successful course scan creates: one folder node (type
      "folder", a directory, no size) for each directory of the walk that
      had no node, a file node typed by its name for each accepted file
      that had none, all under ids handed out from `nextId` on. Ids stay a
      primary key, and stay below the next free id. */
  lemma {:induction false} ScanCourseNewNodes(courseId: nat, coursePath: Path, store: Store, nextId: nat, tree: CourseTree, policy: Policy)
    ensures var ctx := Context(courseId, coursePath, store, policy);
      var r := ScanCourse(courseId, coursePath, store, nextId, tree, policy);
      r.ok ==>
        && nextId <= r.nextId
        && (forall p :: p in r.store && p !in store ==> NewNode(ctx, p, r.store[p], nextId, r.nextId, DirSet(tree.dirs)))
        && (UniqueIds(store) && IdsBelow(store, nextId) ==> UniqueIds(r.store) && IdsBelow(r.store, r.nextId))
  {
    var ctx := Context(courseId, coursePath, store, policy);
    var wd := DirPass(ctx, StartWalk(store, nextId), tree.dirs);
    var w := FilePass(ctx, wd, tree.files);
    var dirs := DirSet(tree.dirs);
    ContextIsOf(courseId, coursePath, store, policy);
    if !w.failed {
      DirPassSound(ctx, store, nextId, tree.dirs);
      DirPassFolders(ctx, store, nextId, tree.dirs);
      DirPassFresh(ctx, store, nextId, tree.dirs, dirs);
      FilePassFresh(ctx, store, nextId, wd, tree.files, dirs);
      FilePassSound(ctx, store, wd, tree.files);
      DeleteUnseenFresh(ctx, store, nextId, w, dirs);
    }
  }
}
