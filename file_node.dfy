/** The FileNode record (one row of `file_nodes`): a file or a directory of
    one course, keyed by its normalised absolute path, with an optional
    reference to the node of the enclosing directory. */
module FileNodeModel {
  import opened Common

  /** A normalised absolute path, as its list of segments: `/data/Books`
      is `["data", "Books"]`. Joining a name onto a path appends a segment,
      so two walks of the same tree produce equal paths. */
  type Path = seq<string>

  function ParentOf(p: Path): Path
    requires |p| > 0
  {
    p[..|p| - 1]
  }

  function BaseName(p: Path): string
    requires |p| > 0
  {
    p[|p| - 1]
  }

  /** True when `p` lies strictly below `root`, segment by segment. */
  predicate IsBelow(p: Path, root: Path)
  {
    |p| > |root| && p[..|root|] == root
  }

  /** The string form of a path, `/` followed by the segments joined by `/`. */
  function Render(p: Path): string
  {
    if |p| == 0 then "/" else RenderTail(p)
  }

  function RenderTail(p: Path): string
  {
    if |p| == 0 then "" else RenderTail(p[..|p| - 1]) + "/" + p[|p| - 1]
  }

  /** One FileNode row. `courseId`, `name`, `path` and `fileType` are
      required columns; `parentId` and `size` are nullable, as Option. */
  datatype FileNode = FileNode(
    id: nat,
    courseId: nat,
    name: string,
    path: Path,
    fileType: string,
    parentId: Option<nat>,
    isDirectory: bool,
    size: Option<nat>)

  /** The `file_nodes` table seen through its unique `path` column: each
      node is stored under its own path, so no two nodes share a path. */
  type Store = map<Path, FileNode>

  predicate PathKeyed(store: Store)
  {
    forall p :: p in store ==> store[p].path == p
  }

  /** Every id below `nextId`, so ids handed out from `nextId` on are new. */
  predicate IdsBelow(store: Store, nextId: nat)
  {
    forall p :: p in store ==> store[p].id < nextId
  }

  /** `id` is the primary key: no two rows share it. */
  predicate UniqueIds(store: Store)
  {
    forall p, q :: p in store && q in store && p != q ==> store[p].id != store[q].id
  }

  /** The nodes of one course (the scanner's `existing_paths`). */
  function CourseNodes(store: Store, courseId: nat): (r: Store)
    ensures forall p :: p in r <==> p in store && store[p].courseId == courseId
    ensures forall p :: p in r ==> r[p] == store[p]
  {
    map p | p in store && store[p].courseId == courseId :: store[p]
  }

  /** The parent reference of the node at `p` agrees with the tree: null for
      a child of the course directory, otherwise the id of the node stored
      at the parent path. */
  predicate LinkedAt(store: Store, coursePath: Path, p: Path)
    requires p in store
  {
    && IsBelow(p, coursePath)
    && (ParentOf(p) == coursePath ==> store[p].parentId == None)
    && (ParentOf(p) != coursePath ==>
          ParentOf(p) in store && store[p].parentId == Some(store[ParentOf(p)].id))
  }

  /** Every node of the course is linked to its parent directory's node. */
  predicate CourseLinked(store: Store, courseId: nat, coursePath: Path)
  {
    forall p :: p in store && store[p].courseId == courseId ==> LinkedAt(store, coursePath, p)
  }

  /** The nodes a course owns, seen as a forest: following parent links from
      a linked node reaches the course directory in |p| - |coursePath| steps,
      because each link goes to the node of a strictly shorter path. */
  lemma {:induction false} LinkedParentIsShorter(store: Store, courseId: nat, coursePath: Path, p: Path)
    requires CourseLinked(store, courseId, coursePath)
    requires p in store && store[p].courseId == courseId
    requires ParentOf(p) != coursePath
    ensures ParentOf(p) in store
    ensures IsBelow(ParentOf(p), coursePath)
    ensures |ParentOf(p)| == |p| - 1
  {
    assert LinkedAt(store, coursePath, p);
    assert ParentOf(p)[..|coursePath|] == p[..|coursePath|];
  }
}
