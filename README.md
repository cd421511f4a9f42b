# Workspace switcher model

A Dafny model of the `WorkspaceSwitcher` React component of the workspace
navigation prototype (`src/components/WorkspaceSwitcher.tsx`). The component
holds a list of workspace records, a search query, a list of recent searches,
a highlighted row (`selectedIndex`) and an open/closed flag. A record has an
id, a name, a type, a creator, an optional team name, the `isActive` and
`isFavorite` flags, and display fields such as its members. From the state
the component derives the ordered list `orderedWorkspaces`:

- With an empty query it holds the current (first active) workspace, then
  the other favourites by name, then the rest by name.
- With a query it holds the records whose name or creator contains the query,
  ignoring case, in their original order.

The panel renders the first ten entries of that list. The highlight and Enter
range over the whole list.

It also derives up to three search suggestions. The keyboard moves the
highlight, Enter selects the highlighted row or creates a workspace, and the
handlers toggle favourites, remove, select, create and reorder records.

Modules:

- `Strings`: the string built-ins the component uses, on strings of Unicode
  code points. `toLowerCase` is an ASCII fold, `includes` is a substring test
  and `localeCompare` is a lexicographic order on code points.
- `Seqs`: `filter`, `slice(0, n)` and facts about them.
- `Sorting`: `Array.prototype.sort` with a comparator, as a stable insertion
  sort.
- `Workspaces`: the record and the list updates that the handlers pass to
  `setWorkspaces` and `setRecentSearches`. These include `Array.find`,
  `findIndex` and `arrayMove`.
- `Derivation`: the memoised derivation of `orderedWorkspaces`, `hasResults`
  and the suggestions.
- `Navigation`: the arrow-key steps and the choice Enter makes.
- `Switcher`: the component state as a class, with one method per event.
  Each method states the whole new state. Lemmas beside the class state what
  the ordered list and the highlight become.
- `Display`: `canRemoveWorkspace` and where the remove button renders, the
  rows the panel renders, the trigger button's text, and two helpers the file
  defines but the switcher never renders: the member face pile counts and the
  collections label.

## Model

| member | source | states |
|---|---|---|
| Strings.ToLower | src/components/WorkspaceSwitcher.tsx:641 | lower-casing keeps the length and folds each character on its own |
| Strings.ToLowerIdempotent | src/components/WorkspaceSwitcher.tsx:641 | a folded string has no upper-case letter, and folding twice is the same as folding once |
| Strings.IncludesIff | src/components/WorkspaceSwitcher.tsx:641-642 | `includes` holds exactly when the substring occurs at some position |
| Strings.IncludesBounds | src/components/WorkspaceSwitcher.tsx:641-642 | every string includes the empty string and includes nothing longer than itself |
| Strings.Compare | src/components/WorkspaceSwitcher.tsx:636 | the name comparison gives -1, 0 or 1 |
| Strings.CompareZeroIff | src/components/WorkspaceSwitcher.tsx:636 | the name comparison is zero exactly for equal strings |
| Strings.CompareAntisymmetric | src/components/WorkspaceSwitcher.tsx:636 | swapping the arguments negates the comparison |
| Strings.CompareTransitive | src/components/WorkspaceSwitcher.tsx:636-637 | "sorts no later than" is transitive |
| Sorting.Sort | src/components/WorkspaceSwitcher.tsx:636-637 | the sort returns a permutation of its input |
| Sorting.SortIsSorted | src/components/WorkspaceSwitcher.tsx:636-637 | for a total preorder, the sort's output is in comparator order |
| Sorting.SortStable | src/components/WorkspaceSwitcher.tsx:636-637 | elements that the comparator ties keep their relative order, as in JavaScript's stable sort |
| Sorting.SortedUnique | src/components/WorkspaceSwitcher.tsx:636-637 | two sorted permutations of each other are equal when the comparator ties no two distinct elements |
| Sorting.SortForgetsOrder | src/components/WorkspaceSwitcher.tsx:636-637 | under the same condition, permutations of each other sort to the same sequence |
| Workspaces.Current | src/components/WorkspaceSwitcher.tsx:631 | `find` gives nothing exactly when no record is active; otherwise it gives an active record of the list |
| Workspaces.CurrentIsFirstActive | src/components/WorkspaceSwitcher.tsx:631 | the current workspace is the first of the active records |
| Workspaces.ToggleFavorite | src/components/WorkspaceSwitcher.tsx:706-710 | length kept; `isFavorite` flipped exactly on the records with the id; every other field of every record unchanged |
| Workspaces.ToggleFavoriteTwice | src/components/WorkspaceSwitcher.tsx:706-710 | toggling the same id twice restores the list |
| Workspaces.RemoveById | src/components/WorkspaceSwitcher.tsx:714-716 | a record remains exactly when it was present and has a different id |
| Workspaces.RemoveKeepsOthers | src/components/WorkspaceSwitcher.tsx:714-716 | the result is a subsequence of the list, keeps every other record as often as it occurred, and holds no record with the id |
| Workspaces.SetActive | src/components/WorkspaceSwitcher.tsx:729-732 | length kept; a record is active exactly when it has the chosen id; every other field unchanged |
| Workspaces.SetActiveMakesCurrent | src/components/WorkspaceSwitcher.tsx:729-732 | with unique ids, selecting a present record leaves it as the only active record, and it becomes the current workspace |
| Workspaces.NewWorkspace | src/components/WorkspaceSwitcher.tsx:745-758 | the new record carries the given id and name, the creator "You", and is neither active nor a favourite |
| Workspaces.RememberSearch | src/components/WorkspaceSwitcher.tsx:722-724 | a non-empty query that is not yet remembered goes to the front of the first four entries; otherwise the list is unchanged |
| Workspaces.RememberSearchInvariant | src/components/WorkspaceSwitcher.tsx:722-724 | at most five entries and no duplicates are preserved; a non-empty query is remembered afterwards; nothing but the query is added |
| Workspaces.FindIndex | src/components/WorkspaceSwitcher.tsx:771-772 | the first index holding the id, or -1 exactly when no record has it |
| Workspaces.ArrayMove | src/components/WorkspaceSwitcher.tsx:774 | the moved element lands at the target index; removing it there gives the list with the source element removed; the result is a permutation |
| Workspaces.ArrayMoveInverse | src/components/WorkspaceSwitcher.tsx:774 | moving back from the target to the source undoes a move |
| Workspaces.DragEnd | src/components/WorkspaceSwitcher.tsx:766-777 | a drop on the same id leaves the list as it was; otherwise the dragged record moves to the position of the drop target and the rest keep their order; always a permutation |
| Derivation.NameLeIsTotalPreorder | src/components/WorkspaceSwitcher.tsx:636-637 | the by-name comparator is total and transitive |
| Derivation.Derive | src/components/WorkspaceSwitcher.tsx:633-665 | `hasResults` holds exactly when `orderedWorkspaces` is not empty |
| Derivation.Displayed | src/components/WorkspaceSwitcher.tsx:634-650 | with a query every entry matches it; with an empty query the current workspace, if any, comes first |
| Derivation.BrowseOrder | src/components/WorkspaceSwitcher.tsx:634-637 | the current workspace, if any, comes first |
| Derivation.SearchResults | src/components/WorkspaceSwitcher.tsx:639-643 | no more entries than records, each matching the query |
| Derivation.Suggestions | src/components/WorkspaceSwitcher.tsx:651-659 | at most three, and none for an empty query |
| Derivation.BrowseOrderArrangement | src/components/WorkspaceSwitcher.tsx:634-650 | with an empty query, the list is the current workspace (if any), then inactive records only; these are exactly the inactive records, sorted favourites-first and then by name |
| Derivation.BrowseOrderLength | src/components/WorkspaceSwitcher.tsx:634-650 | with an empty query, the list holds every inactive record, plus one entry for the current workspace when some record is active |
| Derivation.BrowseOrderPermutation | src/components/WorkspaceSwitcher.tsx:634-650 | with an empty query, the list is a permutation of the records exactly when at most one record is active |
| Derivation.SearchResultsCharacterized | src/components/WorkspaceSwitcher.tsx:639-643 | with a query, the list is a subsequence of the records in original order; each entry matches the query; each matching record occurs as often as in the records and non-matching ones not at all |
| Derivation.HasResultsIff | src/components/WorkspaceSwitcher.tsx:639-662 | `hasResults` holds exactly when a record matches a set query, or, with an empty query, when there is any record |
| Derivation.SearchIgnoresCase | src/components/WorkspaceSwitcher.tsx:641-642 | two queries that lower-case alike find the same records |
| Derivation.SearchByLoweredQuery | src/components/WorkspaceSwitcher.tsx:641-642 | searching for the lower-cased query finds the same records |
| Derivation.SuggestionsShape | src/components/WorkspaceSwitcher.tsx:651-659 | none for an empty query; for a set query exactly min(3, matching recent searches + new names) entries; each contains the query; entry i is the i-th matching recent search while there are such, and after them the matching workspace names that are not recent searches, in the order of the records |
| Derivation.SuggestionAt | src/components/WorkspaceSwitcher.tsx:651-659 | entry i is the i-th matching recent search when i is within them, otherwise the (i - their count)-th new name, which is a record's name and not a recent search |
| Derivation.NewNamesCharacterized | src/components/WorkspaceSwitcher.tsx:655-658 | the new names are the records' names, in record order, kept exactly when the lower-cased name contains the lower-cased query and the name is not a recent search |
| Derivation.NewNamesComplete | src/components/WorkspaceSwitcher.tsx:655-658 | the new names are a subsequence of the records' names, and a record's name is among them exactly when it contains the query, ignoring case, and is not a recent search |
| Derivation.NewNamesCounts | src/components/WorkspaceSwitcher.tsx:655-658 | each name occurs among the new names as often as among the records when it matches and is not a recent search, and otherwise not at all |
| Derivation.CurrentAgrees | src/components/WorkspaceSwitcher.tsx:631-634 | reordering the records does not change the current workspace while at most one record is active |
| Derivation.BrowseOrderForgetsOrder | src/components/WorkspaceSwitcher.tsx:634-650 | with an empty query, the ordered list depends only on which records there are, not on their order, when at most one is active and no two records share a name |
| Derivation.DragKeepsBrowseOrder | src/components/WorkspaceSwitcher.tsx:766-777 | under the same conditions, a drag changes the records' order but not the empty-query ordered list |
| Derivation.ToggleCommutesWithSearch | src/components/WorkspaceSwitcher.tsx:639-643 | toggling a star and then searching gives the search results with the star toggled: no result is added, dropped or reordered |
| Derivation.ToggleKeepsListLength | src/components/WorkspaceSwitcher.tsx:706-710 | toggling a star does not change the length of the ordered list |
| Derivation.PermutationKeepsListLength | src/components/WorkspaceSwitcher.tsx:633-650 | reordering the records does not change the length of the ordered list |
| Derivation.SelectListsAll | src/components/WorkspaceSwitcher.tsx:729-732 | with unique ids, after selecting a present record the empty-query list holds every record, and before it holds no more than all of them |
| Derivation.PrependInactiveAddsRow | src/components/WorkspaceSwitcher.tsx:760 | a new inactive record adds exactly one entry to the empty-query list |
| Derivation.ListedAreWorkspaces | src/components/WorkspaceSwitcher.tsx:633-650 | every entry of the ordered list is one of the records |
| Navigation.StepDown | src/components/WorkspaceSwitcher.tsx:675-677 | ArrowDown moves the highlight one row further exactly when it is before the last row, otherwise leaves it; it stays in range |
| Navigation.StepUp | src/components/WorkspaceSwitcher.tsx:681 | ArrowUp moves the highlight one row back exactly when it is past the first row, otherwise leaves it; it never goes below -1, and a highlighted row stays highlighted |
| Navigation.PressesStayInRange | src/components/WorkspaceSwitcher.tsx:673-681 | whatever arrow keys are pressed, a highlight between -1 and the last row stays there |
| Navigation.HighlightSticks | src/components/WorkspaceSwitcher.tsx:673-681 | once a row is highlighted, the arrow keys never clear the highlight |
| Navigation.DownPresses | src/components/WorkspaceSwitcher.tsx:675-677 | n ArrowDowns move the highlight n rows down, stopping at the last row |
| Navigation.DownPressesFromNothing | src/components/WorkspaceSwitcher.tsx:675-677 | from no highlight, n ArrowDowns highlight row min(n, length) - 1 |
| Navigation.EnterAction | src/components/WorkspaceSwitcher.tsx:683-689 | Enter selects the highlighted row exactly when the highlight is in range; it creates a workspace named after the query exactly when the highlight is out of range, the query is set and there are no rows; otherwise it does nothing |
| Navigation.EnterCreatesOnlyWithoutMatches | src/components/WorkspaceSwitcher.tsx:683-689 | on the ordered list, Enter creates exactly when the query is set and no record's name or creator contains it |
| Switcher.WorkspaceSwitcher.constructor | src/components/WorkspaceSwitcher.tsx:605-610 | the initial state: the given records and recent searches, empty query, no highlight, closed |
| Switcher.WorkspaceSwitcher.SetOpen | src/components/WorkspaceSwitcher.tsx:785 | the open-change callback sets the flag and nothing else |
| Switcher.WorkspaceSwitcher.SetSearchQuery | src/components/WorkspaceSwitcher.tsx:702-704 | the query is replaced; the highlight is reset to -1 exactly when the query changed; nothing else changes; a highlight in range stays in range |
| Switcher.WorkspaceSwitcher.HandleSuggestionClick | src/components/WorkspaceSwitcher.tsx:779-782 | the suggestion becomes the query, with the same reset of the highlight |
| Switcher.WorkspaceSwitcher.HandleToggleFavorite | src/components/WorkspaceSwitcher.tsx:706-710 | the records are toggled and nothing else changes; a highlight in range stays in range |
| Switcher.WorkspaceSwitcher.HandleRemoveFromList | src/components/WorkspaceSwitcher.tsx:714-716 | the records with the id are removed and nothing else changes |
| Switcher.WorkspaceSwitcher.HandleSelectWorkspace | src/components/WorkspaceSwitcher.tsx:718-737 | the chosen id becomes the only active one; the query is remembered; the query is cleared and the panel closed; the highlight is reset exactly when the query was set |
| Switcher.WorkspaceSwitcher.HandleCreateWorkspace | src/components/WorkspaceSwitcher.tsx:739-764 | the new record is put in front and the recent searches are kept; the query is cleared and the panel closed; the highlight is reset exactly when the query was set |
| Switcher.WorkspaceSwitcher.HandleDragEnd | src/components/WorkspaceSwitcher.tsx:766-777 | the records are reordered by the drag and nothing else changes; the highlight stays in range; with an empty query, at most one active record and distinct names, the ordered list is unchanged |
| Switcher.WorkspaceSwitcher.HandleKeyDown | src/components/WorkspaceSwitcher.tsx:669-694 | nothing happens while closed; the arrows step the highlight over the ordered list; Escape closes; Enter does what the Enter choice says; other keys change nothing; except for Enter, a highlight in range stays in range |
| Switcher.WorkspaceSwitcher.HandleEnter | src/components/WorkspaceSwitcher.tsx:683-689 | selects the highlighted row, creates a workspace named after the query, or changes nothing, as the Enter choice on the ordered list before says |
| Switcher.SelectKeepsHighlight | src/components/WorkspaceSwitcher.tsx:718-737 | with unique ids, after selecting a present record and the reset of the highlight, the highlight is within the ordered list then |
| Switcher.CreateKeepsHighlight | src/components/WorkspaceSwitcher.tsx:739-764 | after a creation and the reset of the highlight, the highlight is within the ordered list then |
| Switcher.EnterKeepsHighlight | src/components/WorkspaceSwitcher.tsx:683-704 | with unique ids, after Enter the highlight is within the ordered list, and a creation happens only with a query set |
| Switcher.DragKeepsRows | src/components/WorkspaceSwitcher.tsx:766-777 | with an empty query, at most one active record and distinct names, the ordered list after a drag is the one before |
| Switcher.ToggleKeepsHighlight | src/components/WorkspaceSwitcher.tsx:706-710 | toggling a star keeps a highlight within the ordered list |
| Display.BrowseRowsRemovable | src/components/WorkspaceSwitcher.tsx:483 | with an empty query `canRemoveWorkspace` holds for every entry after the first; it fails for the first exactly when that is the current workspace and not a favourite |
| Display.BrowseRemoveButtons | src/components/WorkspaceSwitcher.tsx:483-550 | with an empty query the remove button renders on an entry exactly when it is past the current workspace and not a favourite; once an entry renders it, every later entry does |
| Display.HighlightPassesRenderedRows | src/components/WorkspaceSwitcher.tsx:673-689 | with more than ten entries, eleven ArrowDowns from no highlight reach the eleventh entry, which the panel does not render, and Enter then selects it |
| Display.MemberFacePile | src/components/WorkspaceSwitcher.tsx:306-308 | the badge counts the members beyond the limit, and none when the limit is not exceeded; the avatars are the first members |
| Display.FacePileAccountsForAll | src/components/WorkspaceSwitcher.tsx:306-308 | for a limit that is not negative, exactly min(limit, members) avatars are shown; avatars and badge together count every member once; the badge shows exactly when there are more members than the limit |
| Display.FacePileNegativeLimit | src/components/WorkspaceSwitcher.tsx:306-308 | a negative limit would make avatars and badge count more than all the members |
| Display.NatToString | src/components/WorkspaceSwitcher.tsx:342 | a count is written as decimal digits without a leading zero |
| Display.NatToStringRoundTrip | src/components/WorkspaceSwitcher.tsx:342 | the digits read back as the number written |
| Display.CollectionsLabel | src/components/WorkspaceSwitcher.tsx:342 | the label starts with the count and ends in "s" exactly when the count is not one |
| Display.CollectionsLabelCount | src/components/WorkspaceSwitcher.tsx:342 | the digits at the head of the label read back as the count |
| Display.TriggerLabel | src/components/WorkspaceSwitcher.tsx:790 | the button shows the current workspace's name, or "Select Workspace" when there is none or its name is empty |
| Display.TriggerAfterSelect | src/components/WorkspaceSwitcher.tsx:718-737 | with unique ids, after a selection the button shows the selected record's name, unless that name is empty |

## Left out

- Rendering: the JSX, class names, icons, tooltips, the preview card and its
  position, which is computed from floating-point DOM geometry. The model
  covers what is shown, not how.
- `generateAvatarUrl` is not modelled as a function. Only its result for the
  seed "current-user" appears, as a constant in the created record.
- The timers of `handleSelectWorkspace` and `handleCreateWorkspace`, and the
  `isLoading`/`isCreating` flags they set. Each handler is one atomic step,
  so events that arrive while one is waiting are not modelled.
- `Date.now()`: the id of a created record is a parameter.
- `focus()` on the search box, the keydown listener registration and the
  dnd-kit sensors and wiring.
- The mock records and `src/pages/Index.tsx`, which holds no logic.
- Strings.ToLower: folds only the ASCII letters, not the full Unicode case
  mapping of `toLowerCase`.
- Strings.Compare: orders names by code point, not by locale collation as
  `localeCompare` does.
- Strings are sequences of Unicode code points, where JavaScript's are
  UTF-16 code units. A character above U+FFFF is one character here but two
  units there, so lengths and substring positions can differ, and lone
  surrogates cannot be written.
- The ten-row limit of the panel (line 852) is modelled only as
  `Display.RenderedRows`. The highlight and Enter range over the whole ordered
  list (lines 676 and 686), so the keyboard can select an entry that is not
  rendered; `Display.HighlightPassesRenderedRows` states this. Scrolling is
  not modelled.
- Switcher.WorkspaceSwitcher.HandleDragEnd: requires both ids to be records
  in the list. A drop outside any row (`over` is null) or an id that is not
  found (`findIndex` gives -1) is not modelled.
- Switcher.WorkspaceSwitcher.HandleRemoveFromList: promises nothing about
  the highlight. The component leaves it where it was, so it can point past
  the end of the shorter list. Enter checks the range before it uses it.
- Switcher.WorkspaceSwitcher.HandleSelectWorkspace: its contract gives the
  new state only. That the highlight stays within the ordered list is stated by
  Switcher.SelectKeepsHighlight, which needs unique ids.
- Switcher.WorkspaceSwitcher.HandleCreateWorkspace: its contract gives the
  new state only. That the highlight stays within the ordered list is stated by
  Switcher.CreateKeepsHighlight.
- Switcher.WorkspaceSwitcher.HandleKeyDown: for Enter, the contract gives
  the new state only. That the highlight stays within the ordered list is stated by
  Switcher.EnterKeepsHighlight.
