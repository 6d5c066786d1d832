/** The search panel's state machine: the active search (query, results,
    timestamp), whether the sidebar shows the tree or the search results,
    and the result the user navigated to. The clock is a parameter. */
module SearchStateService {
  import opened Common

  datatype ItemKind = CourseItem | FileItem

  /** One result as the frontend keeps it. */
  datatype SearchResultItem = SearchResultItem(id: nat, name: string, kind: ItemKind, icon: string,
                                               path: Option<string>, courseId: Option<nat>, categoryId: Option<nat>,
                                               fileType: Option<string>, fileSize: Option<nat>)

  datatype SearchState = SearchState(query: string, results: seq<SearchResultItem>, isActive: bool, timestamp: int)

  datatype ViewMode = Tree | Search

  /** The state before any search and after `closeSearch`. */
  const ClosedState: SearchState := SearchState("", [], false, 0)

  class SearchStateService {
    var state: SearchState
    var view: ViewMode
    var selected: Option<SearchResultItem>

    /** The search view is shown only for an active search, and an inactive
        search holds nothing. */
    ghost predicate Valid()
      reads this
    {
      (view == Search ==> state.isActive) && (!state.isActive ==> state == ClosedState)
    }

    constructor ()
      ensures Valid() && state == ClosedState && view == Tree && selected == None
    {
      state := ClosedState;
      view := Tree;
      selected := None;
    }

    /** `hasResults`. */
    function HasResults(): (r: bool)
      reads this
      ensures r <==> ResultsCount() > 0
    {
      |state.results| > 0
    }

    /** `resultsCount`. */
    function ResultsCount(): (n: nat)
      reads this
      ensures n == |state.results|
      ensures !state.isActive && Valid() ==> n == 0
    {
      |state.results|
    }

    /** `activateSearch`: the query and results become the active search and
        the results are shown. */
    method ActivateSearch(query: string, results: seq<SearchResultItem>, now: int)
      modifies this
      ensures Valid()
      ensures state == SearchState(query, results, true, now) && view == Search
      ensures selected == old(selected)
      ensures ResultsCount() == |results| && (HasResults() <==> |results| > 0)
    {
      state := SearchState(query, results, true, now);
      view := Search;
    }

    /** `navigateToItem`: remembers the item and shows the tree, keeping the
        search so the user can come back to it. */
    method NavigateToItem(item: SearchResultItem)
      requires Valid()
      modifies this
      ensures Valid()
      ensures selected == Some(item) && view == Tree && state == old(state)
    {
      selected := Some(item);
      view := Tree;
    }

    /** `returnToSearch`: shows the results again only while a search is
        active. */
    method ReturnToSearch()
      requires Valid()
      modifies this
      ensures Valid()
      ensures view == (if state.isActive then Search else old(view))
      ensures state == old(state) && selected == old(selected)
    {
      if state.isActive {
        view := Search;
      }
    }

    /** `closeSearch`: forgets the search and the selection and shows the
        tree. */
    method CloseSearch()
      modifies this
      ensures Valid()
      ensures state == ClosedState && view == Tree && selected == None
      ensures !HasResults() && ResultsCount() == 0
    {
      state := ClosedState;
      view := Tree;
      selected := None;
    }
  }

  /** Navigating to a result and coming back shows the same search again. */
  method NavigateAndReturn(s: SearchStateService, item: SearchResultItem, query: string,
                           results: seq<SearchResultItem>, now: int)
    modifies s
    ensures s.Valid() && s.view == Search && s.state == SearchState(query, results, true, now)
    ensures s.selected == Some(item)
  {
    s.ActivateSearch(query, results, now);
    s.NavigateToItem(item);
    s.ReturnToSearch();
  }
}
