/** The `WorkspaceSwitcher` component's state and its event handlers. The
    derived view is recomputed from the state whenever it is read, as the
    component's memoised derivation is. */
module Switcher {
  import opened Seqs
  import opened Workspaces
  import opened Derivation
  import opened Navigation

  class WorkspaceSwitcher {
    var workspaces: seq<Workspace>
    var searchQuery: string
    var recentSearches: seq<string>
    var selectedIndex: int
    var isOpen: bool

    /** Closed, no query, nothing highlighted. */
    constructor (initial: seq<Workspace>, recent: seq<string>)
      ensures workspaces == initial && recentSearches == recent
      ensures searchQuery == "" && selectedIndex == -1 && !isOpen
      ensures HighlightInRange()
    {
      workspaces := initial;
      searchQuery := "";
      recentSearches := recent;
      selectedIndex := -1;
      isOpen := false;
    }

    /** The derived `orderedWorkspaces`. The panel renders only its first
        ten entries (`Display.RenderedRows`), but the highlight and Enter
        range over all of it. */
    function Rows(): seq<Workspace>
      reads this
    {
      Displayed(workspaces, searchQuery)
    }

    /** The highlight is -1 or an index of the ordered list. */
    predicate HighlightInRange()
      reads this
    {
      InRange(selectedIndex, |Rows()|)
    }

    /** The records, the query and the recent searches are as before. */
    twostate predicate DataKept()
      reads this
    {
      workspaces == old(workspaces) && searchQuery == old(searchQuery) && recentSearches == old(recentSearches)
    }

    /** The highlight after the query went from its old value to `""`: the
        reset effect fires only when the query actually changed. */
    twostate predicate HighlightAfterClear()
      reads this
    {
      selectedIndex == if old(searchQuery) != "" then -1 else old(selectedIndex)
    }

    /** The state after `handleSelectWorkspace(w)` has run to completion. */
    twostate predicate Selected(w: Workspace)
      reads this
    {
      workspaces == SetActive(old(workspaces), w.id) &&
      recentSearches == RememberSearch(old(recentSearches), old(searchQuery)) &&
      searchQuery == "" && !isOpen && HighlightAfterClear()
    }

    /** The state after `handleCreateWorkspace(name)` has run to completion,
        with `id` standing for the timestamp id. */
    twostate predicate Created(name: string, id: Id)
      reads this
    {
      workspaces == [NewWorkspace(id, name)] + old(workspaces) &&
      recentSearches == old(recentSearches) &&
      searchQuery == "" && !isOpen && HighlightAfterClear()
    }

    /** The dropdown's open-change callback. */
    method SetOpen(open: bool)
      modifies this
      ensures isOpen == open && DataKept() && selectedIndex == old(selectedIndex)
    {
      isOpen := open;
    }

    /** Typing in the search box, followed by the reset effect. */
    method SetSearchQuery(query: string)
      modifies this
      ensures searchQuery == query
      ensures selectedIndex == if query != old(searchQuery) then -1 else old(selectedIndex)
      ensures workspaces == old(workspaces) && recentSearches == old(recentSearches) && isOpen == old(isOpen)
      ensures old(HighlightInRange()) ==> HighlightInRange()
    {
      if query != searchQuery {
        selectedIndex := -1;
      }
      searchQuery := query;
    }

    /** `handleSuggestionClick`: the suggestion becomes the query. */
    method HandleSuggestionClick(suggestion: string)
      modifies this
      ensures searchQuery == suggestion
      ensures selectedIndex == if suggestion != old(searchQuery) then -1 else old(selectedIndex)
      ensures workspaces == old(workspaces) && recentSearches == old(recentSearches) && isOpen == old(isOpen)
      ensures old(HighlightInRange()) ==> HighlightInRange()
    {
      SetSearchQuery(suggestion);
    }

    /** `handleToggleFavorite`. */
    method HandleToggleFavorite(id: Id)
      modifies this
      ensures workspaces == ToggleFavorite(old(workspaces), id)
      ensures searchQuery == old(searchQuery) && recentSearches == old(recentSearches)
      ensures selectedIndex == old(selectedIndex) && isOpen == old(isOpen)
      ensures old(HighlightInRange()) ==> HighlightInRange()
    {
      ToggleKeepsHighlight(workspaces, id, searchQuery, selectedIndex);
      workspaces := ToggleFavorite(workspaces, id);
    }

    /** `handleRemoveFromList`. The highlight is left where it was, so it
        may point past the end of the shorter list. */
    method HandleRemoveFromList(w: Workspace)
      modifies this
      ensures workspaces == RemoveById(old(workspaces), w.id)
      ensures searchQuery == old(searchQuery) && recentSearches == old(recentSearches)
      ensures selectedIndex == old(selectedIndex) && isOpen == old(isOpen)
    {
      workspaces := RemoveById(workspaces, w.id);
    }

    /** `handleSelectWorkspace`, as one step (`SelectKeepsHighlight` says
        where the highlight ends up). */
    method HandleSelectWorkspace(w: Workspace)
      modifies this
      ensures Selected(w)
    {
      var highlight := if searchQuery != "" then -1 else selectedIndex;
      recentSearches := RememberSearch(recentSearches, searchQuery);
      workspaces := SetActive(workspaces, w.id);
      isOpen := false;
      searchQuery := "";
      selectedIndex := highlight;
    }

    /** `handleCreateWorkspace`, as one step; `id` stands for the
        timestamp id (`CreateKeepsHighlight` says where the highlight ends
        up). */
    method HandleCreateWorkspace(name: string, id: Id)
      modifies this
      ensures Created(name, id)
    {
      var created := NewWorkspace(id, name);
      var highlight := if searchQuery != "" then -1 else selectedIndex;
      workspaces := [created] + workspaces;
      isOpen := false;
      searchQuery := "";
      selectedIndex := highlight;
    }

    /** `handleDragEnd` for a drop on a row: the record with `activeId` moves
        to the position of the record with `overId`. With an empty query,
        at most one active record and no two records sharing a name, the
        ordered list is the same as before. */
    method HandleDragEnd(activeId: Id, overId: Id)
      requires HasId(workspaces, activeId) && HasId(workspaces, overId)
      modifies this
      ensures workspaces == DragEnd(old(workspaces), activeId, overId)
      ensures searchQuery == old(searchQuery) && recentSearches == old(recentSearches)
      ensures selectedIndex == old(selectedIndex) && isOpen == old(isOpen)
      ensures old(HighlightInRange()) ==> HighlightInRange()
      ensures old(searchQuery) == "" && |Filter(old(workspaces), IsActive)| <= 1 && NamesIdentify(old(workspaces)) ==>
        Rows() == old(Rows())
    {
      var moved := DragEnd(workspaces, activeId, overId);
      PermutationKeepsListLength(workspaces, moved, searchQuery);
      DragKeepsRows(workspaces, activeId, overId, searchQuery);
      workspaces := moved;
    }

    /** The document keydown listener. Nothing happens while the panel is
        closed. The arrows move the highlight over the ordered list, Escape
        closes the panel, and Enter is `HandleEnter`. */
    method HandleKeyDown(key: Key, freshId: Id)
      modifies this
      ensures !old(isOpen) ==> unchanged(this)
      ensures old(isOpen) && (key == ArrowDown || key == ArrowUp) ==>
        selectedIndex == Step(key, old(selectedIndex), |old(Rows())|) && isOpen && DataKept()
      ensures old(isOpen) && key == Escape ==> !isOpen && selectedIndex == old(selectedIndex) && DataKept()
      ensures old(isOpen) && key == Other ==> unchanged(this)
      ensures old(isOpen) && key == Enter ==> EnterDone(freshId)
      ensures old(HighlightInRange()) && key != Enter ==> HighlightInRange()
    {
      if !isOpen {
        return;
      }
      match key {
        case ArrowDown =>
          selectedIndex := StepDown(selectedIndex, |Rows()|);
        case ArrowUp =>
          selectedIndex := StepUp(selectedIndex);
        case Enter =>
          HandleEnter(freshId);
        case Escape =>
          isOpen := false;
        case Other =>
      }
    }

    /** The state after Enter: what `EnterAction` chose on the ordered list
        before, with `freshId` standing for the timestamp id of a created
        record. */
    twostate predicate EnterDone(freshId: Id)
      reads this
    {
      match EnterAction(old(Rows()), old(selectedIndex), old(searchQuery))
      case SelectAction(w) => Selected(w)
      case CreateAction(name) => Created(name, freshId)
      case NoAction => unchanged(this)
    }

    /** Enter in the open panel. */
    method HandleEnter(freshId: Id)
      modifies this
      ensures EnterDone(freshId)
    {
      match EnterAction(Rows(), selectedIndex, searchQuery) {
        case SelectAction(w) =>
          HandleSelectWorkspace(w);
        case CreateAction(name) =>
          HandleCreateWorkspace(name, freshId);
        case NoAction =>
      }
    }
  }

  /** Selecting a present id, with unique ids, clears the query; the
      highlight after the reset effect is within the ordered list then. */
  lemma SelectKeepsHighlight(ws: seq<Workspace>, id: Id, query: string, sel: int)
    requires UniqueIds(ws) && HasId(ws, id) && InRange(sel, |Displayed(ws, query)|)
    ensures InRange(if query != "" then -1 else sel, |Displayed(SetActive(ws, id), "")|)
  {
    if query == "" {
      SelectListsAll(ws, id);
    }
  }

  /** Creating a record clears the query; the highlight after the reset
      effect is within the ordered list then. */
  lemma CreateKeepsHighlight(ws: seq<Workspace>, w: Workspace, query: string, sel: int)
    requires !w.isActive && InRange(sel, |Displayed(ws, query)|)
    ensures InRange(if query != "" then -1 else sel, |Displayed([w] + ws, "")|)
  {
    if query == "" {
      PrependInactiveAddsRow(ws, w);
    }
  }

  /** With an empty query, at most one active record and no shared names, a
      drag leaves the ordered list as it was. */
  lemma DragKeepsRows(ws: seq<Workspace>, activeId: Id, overId: Id, query: string)
    requires HasId(ws, activeId) && HasId(ws, overId)
    ensures query == "" && |Filter(ws, IsActive)| <= 1 && NamesIdentify(ws) ==>
      Displayed(DragEnd(ws, activeId, overId), query) == Displayed(ws, query)
  {
    if query == "" && |Filter(ws, IsActive)| <= 1 && NamesIdentify(ws) {
      DragKeepsBrowseOrder(ws, activeId, overId);
    }
  }

  /** Toggling a star keeps a highlight within the ordered list. */
  lemma ToggleKeepsHighlight(ws: seq<Workspace>, id: Id, query: string, sel: int)
    ensures InRange(sel, |Displayed(ws, query)|) ==> InRange(sel, |Displayed(ToggleFavorite(ws, id), query)|)
  {
    ToggleKeepsListLength(ws, id, query);
  }

  /** With unique ids, Enter keeps the highlight within the ordered list
      afterwards: a selected row is one of the records, and a creation
      happens only with a query set, so the reset effect clears the
      highlight. */
  lemma EnterKeepsHighlight(ws: seq<Workspace>, query: string, sel: int)
    requires UniqueIds(ws) && InRange(sel, |Displayed(ws, query)|)
    ensures EnterAction(Displayed(ws, query), sel, query).SelectAction? ==>
      InRange(if query != "" then -1 else sel,
              |Displayed(SetActive(ws, EnterAction(Displayed(ws, query), sel, query).workspace.id), "")|)
    ensures EnterAction(Displayed(ws, query), sel, query).CreateAction? ==> query != ""
  {
    var rows := Displayed(ws, query);
    if 0 <= sel < |rows| {
      ListedAreWorkspaces(ws, query);
      assert rows[sel] in rows;
      SelectKeepsHighlight(ws, rows[sel].id, query, sel);
    }
  }
}
