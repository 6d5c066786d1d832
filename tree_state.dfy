/** The navigation tree's shared state: which nodes are expanded and have
    their children loaded (keyed by `type-id`), which nodes are loading, the
    selected node, the refresh flag and the expansions a search navigation
    asked for. */
module TreeStateService {
  import opened Common

  /** The remembered state of one node. */
  datatype TreeNodeState = TreeNodeState(id: nat, kind: string, isExpanded: bool, childrenLoaded: bool)

  datatype SelectedNode = SelectedNode(id: nat, kind: string, name: string)

  /** The path a search navigation expands; course and folder are optional. */
  datatype PendingExpansion = PendingExpansion(categoryId: nat, courseId: Option<nat>, folderId: Option<nat>)

  /** `getNodeKey`: `${type}-${id}`. */
  function NodeKey(kind: string, id: nat): string
  {
    kind + "-" + NatString(id)
  }

  /** TypeScript truthiness of an optional number: present and not 0. */
  predicate Truthy(n: Option<nat>)
  {
    n.Some? && n.value != 0
  }

  /** Keys of distinct nodes differ, for node types without a dash. */
  lemma NodeKeyInjective(kind1: string, id1: nat, kind2: string, id2: nat)
    requires '-' !in kind1 && '-' !in kind2
    ensures NodeKey(kind1, id1) == NodeKey(kind2, id2) ==> kind1 == kind2 && id1 == id2
  {
    if NodeKey(kind1, id1) == NodeKey(kind2, id2) {
      NodeKeyInjectiveEqual(kind1, id1, kind2, id2);
    }
  }

  lemma NodeKeyInjectiveEqual(kind1: string, id1: nat, kind2: string, id2: nat)
    requires '-' !in kind1 && '-' !in kind2
    requires NodeKey(kind1, id1) == NodeKey(kind2, id2)
    ensures kind1 == kind2 && id1 == id2
  {
    var key := NodeKey(kind1, id1);
    var d1, d2 := NatString(id1), NatString(id2);
    assert forall k :: 0 <= k < |key| && key[k] == '-' ==> k == |kind1| by {
      assert forall k :: |kind1| < k < |key| ==> key[k] == d1[k - |kind1| - 1];
    }
    assert forall k :: 0 <= k < |key| && key[k] == '-' ==> k == |kind2| by {
      assert forall k :: |kind2| < k < |key| ==> key[k] == d2[k - |kind2| - 1];
    }
    assert key[|kind1|] == '-';
    assert kind1 == key[..|kind1|] && kind2 == key[..|kind2|];
    assert d1 == key[|kind1| + 1..] && d2 == key[|kind2| + 1..];
    NatStringInjective(id1, id2);
  }

  class TreeStateService {
    var expanded: map<string, TreeNodeState>
    var loading: set<string>
    var selected: Option<SelectedNode>
    var needsRefresh: bool
    var pending: Option<PendingExpansion>

    /** A fresh service; the stored state a browser session restores is not
        part of this model. */
    constructor ()
      ensures expanded == map[] && loading == {} && selected == None && !needsRefresh && pending == None
    {
      expanded := map[];
      loading := {};
      selected := None;
      needsRefresh := false;
      pending := None;
    }

    /** `isExpanded`: an unknown node is collapsed. */
    function IsExpanded(kind: string, id: nat): (r: bool)
      reads this
      ensures NodeKey(kind, id) !in expanded ==> !r
      ensures r <==> NodeKey(kind, id) in expanded && expanded[NodeKey(kind, id)].isExpanded
    {
      var key := NodeKey(kind, id);
      key in expanded && expanded[key].isExpanded
    }

    /** `areChildrenLoaded`: an unknown node has nothing loaded. */
    function AreChildrenLoaded(kind: string, id: nat): (r: bool)
      reads this
      ensures NodeKey(kind, id) !in expanded ==> !r
      ensures r <==> NodeKey(kind, id) in expanded && expanded[NodeKey(kind, id)].childrenLoaded
    {
      var key := NodeKey(kind, id);
      key in expanded && expanded[key].childrenLoaded
    }

    /** `setExpanded`: the node ends up expanded or collapsed as asked, its
        loaded flag is kept, collapsing an unknown node records nothing, and
        no other node changes. */
    method SetExpanded(kind: string, id: nat, flag: bool)
      modifies this
      ensures IsExpanded(kind, id) == flag
      ensures AreChildrenLoaded(kind, id) == old(AreChildrenLoaded(kind, id))
      ensures !flag && NodeKey(kind, id) !in old(expanded) ==> expanded == old(expanded)
      ensures flag ==> expanded == old(expanded)[NodeKey(kind, id) := TreeNodeState(id, kind, true, old(AreChildrenLoaded(kind, id)))]
      ensures forall k :: k != NodeKey(kind, id) ==>
                (k in expanded <==> k in old(expanded)) && (k in expanded ==> expanded[k] == old(expanded)[k])
      ensures loading == old(loading) && selected == old(selected)
      ensures needsRefresh == old(needsRefresh) && pending == old(pending)
    {
      var key := NodeKey(kind, id);
      if flag {
        var loaded := key in expanded && expanded[key].childrenLoaded;
        expanded := expanded[key := TreeNodeState(id, kind, true, loaded)];
      } else if key in expanded {
        expanded := expanded[key := expanded[key].(isExpanded := false)];
      }
    }

    /** `setChildrenLoaded`: the node's children are loaded; a node seen for
        the first time counts as expanded. */
    method SetChildrenLoaded(kind: string, id: nat)
      modifies this
      ensures AreChildrenLoaded(kind, id)
      ensures IsExpanded(kind, id) == (NodeKey(kind, id) !in old(expanded) || old(IsExpanded(kind, id)))
      ensures NodeKey(kind, id) in expanded && expanded[NodeKey(kind, id)].id == id && expanded[NodeKey(kind, id)].kind == kind
      ensures forall k :: k != NodeKey(kind, id) ==>
                (k in expanded <==> k in old(expanded)) && (k in expanded ==> expanded[k] == old(expanded)[k])
      ensures loading == old(loading) && selected == old(selected)
      ensures needsRefresh == old(needsRefresh) && pending == old(pending)
    {
      var key := NodeKey(kind, id);
      var isExpanded := if key in expanded then expanded[key].isExpanded else true;
      expanded := expanded[key := TreeNodeState(id, kind, isExpanded, true)];
    }

    /** `isLoading`. */
    function IsLoading(kind: string, id: nat): (r: bool)
      reads this
      ensures r <==> NodeKey(kind, id) in loading
    {
      NodeKey(kind, id) in loading
    }

    /** `setLoading`: adds or removes the node's key and nothing else. */
    method SetLoading(kind: string, id: nat, flag: bool)
      modifies this
      ensures IsLoading(kind, id) == flag
      ensures loading == if flag then old(loading) + {NodeKey(kind, id)} else old(loading) - {NodeKey(kind, id)}
      ensures expanded == old(expanded) && selected == old(selected)
      ensures needsRefresh == old(needsRefresh) && pending == old(pending)
    {
      var key := NodeKey(kind, id);
      if flag {
        loading := loading + {key};
      } else {
        loading := loading - {key};
      }
    }

    /** `selectNode` and `getSelectedNodeId`. */
    method SelectNode(node: Option<SelectedNode>)
      modifies this
      ensures selected == node && SelectedNodeId() == (if node.Some? then Some(node.value.id) else None)
      ensures expanded == old(expanded) && loading == old(loading)
      ensures needsRefresh == old(needsRefresh) && pending == old(pending)
    {
      selected := node;
    }

    function SelectedNodeId(): (r: Option<nat>)
      reads this
      ensures r.Some? <==> selected.Some?
      ensures r.Some? ==> r.value == selected.value.id
    {
      if selected.Some? then Some(selected.value.id) else None
    }

    /** `clearExpansionState`: every node reads as collapsed afterwards. */
    method ClearExpansionState()
      modifies this
      ensures expanded == map[]
      ensures forall kind, id :: !IsExpanded(kind, id) && !AreChildrenLoaded(kind, id)
      ensures loading == old(loading) && selected == old(selected)
      ensures needsRefresh == old(needsRefresh) && pending == old(pending)
    {
      expanded := map[];
    }

    /** `requestRefresh` and `refreshHandled`. */
    method SetNeedsRefresh(flag: bool)
      modifies this
      ensures needsRefresh == flag
      ensures expanded == old(expanded) && loading == old(loading)
      ensures selected == old(selected) && pending == old(pending)
    {
      needsRefresh := flag;
    }

    /** `getExpandedNodeKeys`, as a set: the order of the map's entries is
        not part of this model. */
    function ExpandedNodeKeys(): (keys: set<string>)
      reads this
      ensures keys <= expanded.Keys
      ensures forall kind, id :: NodeKey(kind, id) in keys <==> IsExpanded(kind, id)
    {
      set k | k in expanded && expanded[k].isExpanded
    }

    /** `clearChildrenLoadedFlags`: every remembered node forgets its
        children; which nodes are remembered and which are expanded stays. */
    method ClearChildrenLoadedFlags()
      modifies this
      ensures expanded.Keys == old(expanded).Keys
      ensures forall k :: k in expanded ==> expanded[k] == old(expanded)[k].(childrenLoaded := false)
      ensures forall kind, id :: !AreChildrenLoaded(kind, id)
      ensures ExpandedNodeKeys() == old(ExpandedNodeKeys())
      ensures loading == old(loading) && selected == old(selected)
      ensures needsRefresh == old(needsRefresh) && pending == old(pending)
    {
      var current := expanded;
      var remaining := expanded.Keys;
      while remaining != {}
        invariant remaining <= current.Keys && current.Keys == expanded.Keys
        invariant forall k :: k in current && k in remaining ==> current[k] == expanded[k]
        invariant forall k :: k in current && k !in remaining ==> current[k] == expanded[k].(childrenLoaded := false)
        decreases remaining
      {
        var k :| k in remaining;
        current := current[k := current[k].(childrenLoaded := false)];
        remaining := remaining - {k};
      }
      expanded := current;
    }

    /** `expandToNode`: records the pending path, expands the category, and
        expands the course and the folder only when their ids are truthy, so
        an id of 0 is skipped. */
    method ExpandToNode(categoryId: nat, courseId: Option<nat>, folderId: Option<nat>)
      modifies this
      ensures pending == Some(PendingExpansion(categoryId, courseId, folderId))
      ensures IsExpanded("category", categoryId)
      ensures Truthy(courseId) ==> IsExpanded("course", courseId.value)
      ensures Truthy(folderId) ==> IsExpanded("folder", folderId.value)
      ensures forall kind, id :: old(AreChildrenLoaded(kind, id)) ==> AreChildrenLoaded(kind, id)
      ensures forall k :: k != NodeKey("category", categoryId)
                          && (Truthy(courseId) ==> k != NodeKey("course", courseId.value))
                          && (Truthy(folderId) ==> k != NodeKey("folder", folderId.value)) ==>
                (k in expanded <==> k in old(expanded)) && (k in expanded ==> expanded[k] == old(expanded)[k])
      ensures !Truthy(courseId) && !Truthy(folderId) ==>
                expanded == old(expanded)[NodeKey("category", categoryId) :=
                  TreeNodeState(categoryId, "category", true, old(AreChildrenLoaded("category", categoryId)))]
      ensures loading == old(loading) && selected == old(selected) && needsRefresh == old(needsRefresh)
    {
      pending := Some(PendingExpansion(categoryId, courseId, folderId));
      SetExpanded("category", categoryId, true);
      if Truthy(courseId) {
        NodeKeyInjective("category", categoryId, "course", courseId.value);
        SetExpanded("course", courseId.value, true);
      }
      if Truthy(folderId) {
        NodeKeyInjective("category", categoryId, "folder", folderId.value);
        if Truthy(courseId) {
          NodeKeyInjective("course", courseId.value, "folder", folderId.value);
        }
        SetExpanded("folder", folderId.value, true);
      }
    }

    /** `clearPendingExpansions`. */
    method ClearPendingExpansions()
      modifies this
      ensures pending == None
      ensures expanded == old(expanded) && loading == old(loading)
      ensures selected == old(selected) && needsRefresh == old(needsRefresh)
    {
      pending := None;
    }
  }

  /** Expanding or collapsing one node leaves every other node as it was. */
  lemma OtherNodesUnaffected(before: map<string, TreeNodeState>, after: map<string, TreeNodeState>,
                             kind: string, id: nat, kind2: string, id2: nat)
    requires '-' !in kind && '-' !in kind2 && (kind2, id2) != (kind, id)
    requires forall k :: k != NodeKey(kind, id) ==>
               (k in after <==> k in before) && (k in after ==> after[k] == before[k])
    ensures NodeKey(kind2, id2) in after <==> NodeKey(kind2, id2) in before
    ensures NodeKey(kind2, id2) in after ==> after[NodeKey(kind2, id2)] == before[NodeKey(kind2, id2)]
  {
    NodeKeyInjective(kind2, id2, kind, id);
  }
}
