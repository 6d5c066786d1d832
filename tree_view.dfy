/** The navigation tree component: turning a course's flat file list into a
    tree (`buildFileTree`), and loading a node's children the first time it
    is expanded (`expandNode`). Node objects are identified by their ids:
    `buildFileTree` keeps one node per file id, and the parent-child links
    are a map from a node id to the ids of its children. */
module TreeView {
  import opened Common
  import opened FrontendFileService

  datatype NodeKind = CategoryNode | CourseNode | FileLeaf | FolderNode

  /** A tree node without its children. */
  datatype TreeNode = TreeNode(id: nat, name: string, kind: NodeKind, isExpandable: bool,
                               fileType: Option<FileType>, fileData: Option<FileNode>)

  /** The node the first pass creates for a file: a folder is expandable
      and carries neither type nor data; a file carries both. */
  function NodeOf(f: FileNode): (n: TreeNode)
    ensures n.id == f.id && n.name == f.name && n.isExpandable == f.isDirectory
    ensures f.isDirectory ==> n.kind == FolderNode && n.fileType.None? && n.fileData.None?
    ensures !f.isDirectory ==> n.kind == FileLeaf && n.fileType == Some(GetFileType(f.name)) && n.fileData == Some(f)
  {
    if f.isDirectory then TreeNode(f.id, f.name, FolderNode, true, None, None)
    else TreeNode(f.id, f.name, FileLeaf, false, Some(GetFileType(f.name)), Some(f))
  }

  function IdsOf(files: seq<FileNode>): (ids: set<nat>)
    decreases |files|
  {
    if |files| == 0 then {} else IdsOf(files[..|files| - 1]) + {files[|files| - 1].id}
  }

  /** The ids are exactly those the files carry. */
  lemma {:induction false} IdsOfMembers(files: seq<FileNode>, x: nat)
    ensures x in IdsOf(files) <==> exists k :: 0 <= k < |files| && files[k].id == x
    decreases |files|
  {
    if |files| > 0 {
      var n := |files|;
      IdsOfMembers(files[..n - 1], x);
      assert forall k :: 0 <= k < n - 1 ==> files[..n - 1][k] == files[k];
    }
  }

  /** A file is a root when it has no parent or its parent is not among the
      files. */
  predicate IsRoot(f: FileNode, ids: set<nat>)
  {
    f.parentId.None? || f.parentId.value !in ids
  }

  /** The root ids in input order: at most one per file, and every file
      when no parent id is known. */
  function Roots(files: seq<FileNode>, ids: set<nat>): (r: seq<nat>)
    ensures |r| <= |files|
    ensures ids == {} ==> |r| == |files| && forall k :: 0 <= k < |files| ==> r[k] == files[k].id
    decreases |files|
  {
    if |files| == 0 then []
    else
      var f := files[|files| - 1];
      assert forall k :: 0 <= k < |files| - 1 ==> files[..|files| - 1][k] == files[k];
      Roots(files[..|files| - 1], ids) + (if IsRoot(f, ids) then [f.id] else [])
  }

  /** The ids of the children of `p` in input order: none when `p` is not
      among the files. */
  function ChildrenOf(files: seq<FileNode>, ids: set<nat>, p: nat): (r: seq<nat>)
    ensures |r| <= |files|
    ensures p !in ids ==> r == []
    decreases |files|
  {
    if |files| == 0 then []
    else
      var f := files[|files| - 1];
      ChildrenOf(files[..|files| - 1], ids, p) + (if f.parentId == Some(p) && p in ids then [f.id] else [])
  }

  predicate DistinctIds(files: seq<FileNode>)
  {
    forall i, j :: 0 <= i < j < |files| ==> files[i].id != files[j].id
  }

  /** `buildFileTree`. The first pass creates a node per file, a later file
      replacing an earlier one with the same id; the second pass makes each
      file a root or appends it to its parent's children. */
  method BuildFileTree(files: seq<FileNode>) returns (nodes: map<nat, TreeNode>, children: map<nat, seq<nat>>, roots: seq<nat>)
    ensures nodes.Keys == IdsOf(files)
    ensures LastWins(files, nodes)
    ensures roots == Roots(files, IdsOf(files))
    ensures children == ChildrenMap(files, IdsOf(files))
  {
    nodes := map[];
    var i := 0;
    while i < |files|
      invariant 0 <= i <= |files|
      invariant nodes.Keys == IdsOf(files[..i])
      invariant LastWins(files[..i], nodes)
    {
      PrefixSnoc(files, i);
      IdsOfSnoc(files[..i], files[i]);
      LastWinsSnoc(files[..i], files[i], nodes);
      nodes := nodes[files[i].id := NodeOf(files[i])];
      i := i + 1;
    }
    assert files[..i] == files;
    var ids := nodes.Keys;
    children := map p | p in ids :: [];
    assert children == ChildrenMap([], ids);
    roots := [];
    i := 0;
    while i < |files|
      invariant 0 <= i <= |files|
      invariant roots == Roots(files[..i], ids)
      invariant children == ChildrenMap(files[..i], ids)
    {
      var f := files[i];
      PrefixSnoc(files, i);
      RootsSnoc(files[..i], f, ids);
      ChildrenMapSnoc(files[..i], f, ids);
      if f.parentId.None? {
        roots := roots + [f.id];
      } else if f.parentId.value in nodes {
        var p := f.parentId.value;
        children := children[p := children[p] + [f.id]];
      } else {
        roots := roots + [f.id];
      }
      i := i + 1;
    }
    assert files[..i] == files;
  }

  /** The children lists of every node: one list per known id, none longer
      than the file list. */
  function ChildrenMap(files: seq<FileNode>, ids: set<nat>): (m: map<nat, seq<nat>>)
    ensures m.Keys == ids
    ensures forall p :: p in m ==> |m[p]| <= |files|
  {
    map p | p in ids :: ChildrenOf(files, ids, p)
  }

  lemma ChildrenMapSnoc(files: seq<FileNode>, f: FileNode, ids: set<nat>)
    ensures f.parentId.Some? && f.parentId.value in ids ==>
              ChildrenMap(files + [f], ids) == ChildrenMap(files, ids)[f.parentId.value := ChildrenMap(files, ids)[f.parentId.value] + [f.id]]
    ensures !(f.parentId.Some? && f.parentId.value in ids) ==> ChildrenMap(files + [f], ids) == ChildrenMap(files, ids)
  {
    var before := ChildrenMap(files, ids);
    var after := ChildrenMap(files + [f], ids);
    forall p | p in ids
      ensures after[p] == if f.parentId == Some(p) then before[p] + [f.id] else before[p]
    {
      ChildrenSnoc(files, f, ids, p);
      assert before[p] + [] == before[p];
    }
    if f.parentId.Some? && f.parentId.value in ids {
      var q := f.parentId.value;
      assert after == before[q := before[q] + [f.id]];
    } else {
      assert after == before;
    }
  }

  /** No file after the `k`-th carries its id. */
  predicate NoLaterId(files: seq<FileNode>, k: nat)
    requires k < |files|
  {
    forall j :: k < j < |files| ==> files[j].id != files[k].id
  }

  lemma PrefixSnoc(files: seq<FileNode>, i: nat)
    requires i < |files|
    ensures files[..i + 1] == files[..i] + [files[i]]
  {
  }

  /** Each id maps to the node of the last file carrying it. */
  predicate LastWins(files: seq<FileNode>, nodes: map<nat, TreeNode>)
  {
    forall k :: 0 <= k < |files| && NoLaterId(files, k) ==> files[k].id in nodes && nodes[files[k].id] == NodeOf(files[k])
  }

  lemma LastWinsSnoc(files: seq<FileNode>, f: FileNode, nodes: map<nat, TreeNode>)
    requires LastWins(files, nodes)
    ensures LastWins(files + [f], nodes[f.id := NodeOf(f)])
  {
    var fs := files + [f];
    var m := nodes[f.id := NodeOf(f)];
    forall k | 0 <= k < |fs| && NoLaterId(fs, k)
      ensures fs[k].id in m && m[fs[k].id] == NodeOf(fs[k])
    {
      if k < |files| {
        assert fs[k] == files[k];
        assert fs[|files|].id != fs[k].id;
        assert NoLaterId(files, k) by {
          forall j | k < j < |files|
            ensures files[j].id != files[k].id
          {
            assert fs[j] == files[j];
          }
        }
      }
    }
  }

  lemma IdsOfSnoc(files: seq<FileNode>, f: FileNode)
    ensures IdsOf(files + [f]) == IdsOf(files) + {f.id}
  {
    assert (files + [f])[..|files|] == files;
  }

  lemma RootsSnoc(files: seq<FileNode>, f: FileNode, ids: set<nat>)
    ensures Roots(files + [f], ids) == Roots(files, ids) + (if IsRoot(f, ids) then [f.id] else [])
  {
    assert (files + [f])[..|files|] == files;
  }

  lemma ChildrenSnoc(files: seq<FileNode>, f: FileNode, ids: set<nat>, p: nat)
    ensures ChildrenOf(files + [f], ids, p) == ChildrenOf(files, ids, p) + (if f.parentId == Some(p) && p in ids then [f.id] else [])
  {
    assert (files + [f])[..|files|] == files;
  }

  /** A root is exactly a file without a parent among the files. */
  lemma {:induction false} RootsAreParentless(files: seq<FileNode>, ids: set<nat>, x: nat)
    ensures x in Roots(files, ids) <==> exists f :: f in files && f.id == x && IsRoot(f, ids)
    decreases |files|
  {
    if |files| > 0 {
      var n := |files|;
      RootsAreParentless(files[..n - 1], ids, x);
      assert forall f :: f in files <==> f in files[..n - 1] || f == files[n - 1];
    }
  }

  /** A child of `p` is exactly a file whose parent `p` is among the files. */
  lemma {:induction false} ChildrenHaveThatParent(files: seq<FileNode>, ids: set<nat>, p: nat, x: nat)
    ensures x in ChildrenOf(files, ids, p) <==> p in ids && exists f :: f in files && f.id == x && f.parentId == Some(p)
    decreases |files|
  {
    if |files| > 0 {
      var n := |files|;
      ChildrenHaveThatParent(files[..n - 1], ids, p, x);
      assert forall f :: f in files <==> f in files[..n - 1] || f == files[n - 1];
    }
  }

  /** With distinct ids every file is placed exactly once: as a root when
      its parent is absent, and otherwise never among the roots. */
  lemma {:induction false} RootPlacedOnce(files: seq<FileNode>, ids: set<nat>, k: nat)
    requires DistinctIds(files) && k < |files|
    ensures multiset(Roots(files, ids))[files[k].id] == (if IsRoot(files[k], ids) then 1 else 0)
    decreases |files|
  {
    var n := |files|;
    var pre := files[..n - 1];
    var last := files[n - 1];
    assert files == pre + [last];
    RootsSnoc(pre, last, ids);
    assert DistinctIds(pre);
    if k < n - 1 {
      assert pre[k] == files[k];
      assert last.id != files[k].id;
      RootPlacedOnce(pre, ids, k);
    } else {
      AbsentIdNotRoot(pre, ids, last.id);
    }
  }

  /** With distinct ids a file is once among the children of its parent,
      when that parent is among the files, and never among any other node's. */
  lemma {:induction false} ChildPlacedOnce(files: seq<FileNode>, ids: set<nat>, k: nat, p: nat)
    requires DistinctIds(files) && k < |files|
    ensures multiset(ChildrenOf(files, ids, p))[files[k].id] == (if files[k].parentId == Some(p) && p in ids then 1 else 0)
    decreases |files|
  {
    var n := |files|;
    var pre := files[..n - 1];
    var last := files[n - 1];
    assert files == pre + [last];
    ChildrenSnoc(pre, last, ids, p);
    assert DistinctIds(pre);
    if k < n - 1 {
      assert pre[k] == files[k];
      assert last.id != files[k].id;
      ChildPlacedOnce(pre, ids, k, p);
    } else {
      AbsentIdNotChild(pre, ids, last.id, p);
    }
  }

  /** An id no file carries is not a root. */
  lemma {:induction false} AbsentIdNotRoot(files: seq<FileNode>, ids: set<nat>, x: nat)
    requires forall j :: 0 <= j < |files| ==> files[j].id != x
    ensures multiset(Roots(files, ids))[x] == 0
    decreases |files|
  {
    if |files| > 0 {
      AbsentIdNotRoot(files[..|files| - 1], ids, x);
    }
  }

  /** An id no file carries is nobody's child. */
  lemma {:induction false} AbsentIdNotChild(files: seq<FileNode>, ids: set<nat>, x: nat, p: nat)
    requires forall j :: 0 <= j < |files| ==> files[j].id != x
    ensures multiset(ChildrenOf(files, ids, p))[x] == 0
    decreases |files|
  {
    if |files| > 0 {
      AbsentIdNotChild(files[..|files| - 1], ids, x, p);
    }
  }

  /** What expanding a node asks the server for. */
  datatype LoadRequest = LoadCourses(categoryId: nat) | LoadFiles(courseId: nat) | NoLoad

  /** A course as the tree receives it. */
  datatype CourseSummary = CourseSummary(id: nat, name: string)

  /** One node of the tree with its children and loading flag, which the
      component updates in place. The nodes below the children (the folders'
      contents a course's files answer builds) are kept as `subtree`, a node
      per id, and `links`, the children ids of each of those nodes. */
  class ExpandableNode {
    const node: TreeNode
    var children: seq<TreeNode>
    var subtree: map<nat, TreeNode>
    var links: map<nat, seq<nat>>
    var loading: bool

    constructor (node: TreeNode)
      ensures this.node == node && children == [] && !loading
      ensures subtree == map[] && links == map[]
    {
      this.node := node;
      children := [];
      subtree := map[];
      links := map[];
      loading := false;
    }

    /** `expandNode`: only a node with no children that is not already
        loading starts a load; a category loads its courses and a course its
        files, and the node is marked loading. */
    method ExpandNode() returns (request: LoadRequest)
      modifies this
      ensures request != NoLoad <==> |old(children)| == 0 && !old(loading) && node.kind in {CategoryNode, CourseNode}
      ensures request.LoadCourses? <==> |old(children)| == 0 && !old(loading) && node.kind == CategoryNode
      ensures request.LoadCourses? ==> request.categoryId == node.id
      ensures request.LoadFiles? ==> request.courseId == node.id && node.kind == CourseNode
      ensures loading == (old(loading) || request != NoLoad)
      ensures children == old(children) && subtree == old(subtree) && links == old(links)
    {
      request := NoLoad;
      if |children| == 0 && !loading {
        if node.kind == CategoryNode {
          loading := true;
          request := LoadCourses(node.id);
        } else if node.kind == CourseNode {
          loading := true;
          request := LoadFiles(node.id);
        }
      }
    }

    /** The courses answer: on success they become expandable course nodes;
        either way loading ends. */
    method CoursesLoaded(response: Option<seq<CourseSummary>>)
      modifies this
      ensures !loading
      ensures response.None? ==> children == old(children)
      ensures subtree == old(subtree) && links == old(links)
      ensures response.Some? ==> |children| == |response.value| && forall k :: 0 <= k < |children| ==>
                children[k] == TreeNode(response.value[k].id, response.value[k].name, CourseNode, true, None, None)
    {
      if response.Some? {
        var courses := response.value;
        children := seq(|courses|, k requires 0 <= k < |courses| => TreeNode(courses[k].id, courses[k].name, CourseNode, true, None, None));
      }
      loading := false;
    }

    /** The files answer: on success the roots of the built tree become the
        children, and the built nodes and links are kept below them; either
        way loading ends. */
    method FilesLoaded(response: Option<seq<FileNode>>)
      modifies this
      ensures !loading
      ensures response.None? ==> children == old(children) && subtree == old(subtree) && links == old(links)
      ensures response.Some? ==>
        var files := response.value;
        var roots := Roots(files, IdsOf(files));
        && subtree.Keys == IdsOf(files) && LastWins(files, subtree)
        && links == ChildrenMap(files, IdsOf(files))
        && |children| == |roots|
        && forall k :: 0 <= k < |children| ==> roots[k] in subtree && children[k] == subtree[roots[k]] && children[k].id == roots[k]
    {
      if response.Some? {
        var nodes, built, roots := BuildFileTree(response.value);
        RootsAreNodes(response.value, IdsOf(response.value));
        subtree, links := nodes, built;
        children := seq(|roots|, k requires 0 <= k < |roots| => nodes[roots[k]]);
        forall k | 0 <= k < |children|
          ensures children[k].id == roots[k]
        {
          RootNodeId(response.value, nodes, roots[k]);
        }
      }
      loading := false;
    }
  }

  /** Every root id names a node. */
  lemma RootsAreNodes(files: seq<FileNode>, ids: set<nat>)
    ensures forall x :: x in Roots(files, ids) ==> x in IdsOf(files)
  {
    forall x | x in Roots(files, ids)
      ensures x in IdsOf(files)
    {
      RootsAreParentless(files, ids, x);
    }
  }

  /** The node kept for an id carries that id. */
  lemma RootNodeId(files: seq<FileNode>, nodes: map<nat, TreeNode>, x: nat)
    requires nodes.Keys == IdsOf(files) && x in nodes
    requires LastWins(files, nodes)
    ensures nodes[x].id == x
  {
    var k := LastWithId(files, x);
  }

  /** The last file carrying an id. */
  lemma {:induction false} LastWithId(files: seq<FileNode>, x: nat) returns (k: nat)
    requires x in IdsOf(files)
    ensures k < |files| && files[k].id == x && forall j :: k < j < |files| ==> files[j].id != x
    decreases |files|
  {
    var n := |files|;
    if files[n - 1].id == x {
      k := n - 1;
    } else {
      var pre := files[..n - 1];
      assert x in IdsOf(pre);
      k := LastWithId(pre, x);
      assert files[k] == pre[k];
    }
  }
}
