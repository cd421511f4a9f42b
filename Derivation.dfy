/** The switcher's derived view (the `useMemo` over `workspaces`,
    `searchQuery` and `recentSearches`): the ordered list to display,
    whether it has anything in it, and the search suggestions. */
module Derivation {
  import opened Strings
  import opened Seqs
  import opened Workspaces
  import opened Sorting

  /** The sort comparator `(a, b) => a.name.localeCompare(b.name)`, read as
      "`a` may come before `b`". */
  predicate NameLe(a: Workspace, b: Workspace) {
    Compare(a.name, b.name) <= 0
  }

  lemma NameLeIsTotalPreorder()
    ensures TotalPreorder(NameLe)
  {
    forall a: Workspace, b: Workspace ensures NameLe(a, b) || NameLe(b, a) {
      CompareAntisymmetric(a.name, b.name);
    }
    forall a: Workspace, b: Workspace, c: Workspace | NameLe(a, b) && NameLe(b, c) ensures NameLe(a, c) {
      CompareTransitive(a.name, b.name, c.name);
    }
  }

  predicate IsInactive(w: Workspace) { !w.isActive }
  predicate IsFavorite(w: Workspace) { w.isFavorite }
  predicate IsNotFavorite(w: Workspace) { !w.isFavorite }

  /** The ordered list while the query is empty, for a comparator `le`: the
      current workspace, then the other favourites sorted by `le`, then the
      rest sorted by `le`. */
  function BrowseOrderBy(ws: seq<Workspace>, le: (Workspace, Workspace) -> bool): seq<Workspace> {
    CurrentPrefix(ws) + Groups(ws, le)
  }

  /** `[current]` when there is an active record, else nothing. */
  function CurrentPrefix(ws: seq<Workspace>): seq<Workspace> {
    match Current(ws)
    case Some(current) => [current]
    case None => []
  }

  /** The prefix holds active records only. */
  lemma CurrentPrefixActive(ws: seq<Workspace>)
    ensures forall i :: 0 <= i < |CurrentPrefix(ws)| ==> CurrentPrefix(ws)[i].isActive
  {
  }

  /** The inactive favourites sorted, then the other inactive records sorted. */
  function Groups(ws: seq<Workspace>, le: (Workspace, Workspace) -> bool): seq<Workspace> {
    var others := Filter(ws, IsInactive);
    Sort(Filter(others, IsFavorite), le) + Sort(Filter(others, IsNotFavorite), le)
  }

  /** The ordered list while the query is empty, sorted by name. */
  function BrowseOrder(ws: seq<Workspace>): (r: seq<Workspace>)
    ensures Current(ws).Some? ==> |r| > 0 && r[0] == Current(ws).value
  {
    BrowseOrderBy(ws, NameLe)
  }

  /** A record matches a query when its lower-cased name or creator
      contains the lower-cased query. */
  predicate Matches(w: Workspace, query: string) {
    Includes(ToLower(w.name), ToLower(query)) || Includes(ToLower(w.creator), ToLower(query))
  }

  function MatchesQuery(query: string): Workspace -> bool {
    (w: Workspace) => Matches(w, query)
  }

  /** The ordered list while a query is typed. */
  function SearchResults(ws: seq<Workspace>, query: string): (r: seq<Workspace>)
    ensures |r| <= |ws|
    ensures forall i :: 0 <= i < |r| ==> Matches(r[i], query)
  {
    Filter(ws, MatchesQuery(query))
  }

  function SearchMatches(query: string): string -> bool {
    (s: string) => Includes(ToLower(s), ToLower(query))
  }

  function NameMatchesQuery(query: string): Workspace -> bool {
    (w: Workspace) => Includes(ToLower(w.name), ToLower(query))
  }

  function NotIn(recent: seq<string>): string -> bool {
    (s: string) => s !in recent
  }

  /** `ws.map(w => w.name)`. */
  function Names(ws: seq<Workspace>): (r: seq<string>)
    ensures |r| == |ws|
    ensures forall i :: 0 <= i < |ws| ==> r[i] == ws[i].name
  {
    if ws == [] then [] else [ws[0].name] + Names(ws[1..])
  }

  /** The recent searches that contain the query. */
  function RecentMatches(recent: seq<string>, query: string): seq<string> {
    Filter(recent, SearchMatches(query))
  }

  /** The names of the workspaces whose name contains the query, except
      those already among the recent searches. */
  function NewNames(ws: seq<Workspace>, recent: seq<string>, query: string): seq<string> {
    Filter(Names(Filter(ws, NameMatchesQuery(query))), NotIn(recent))
  }

  /** The suggestions under the search box: none for an empty query,
      otherwise the first three of the matching recent searches followed by
      the new matching names. */
  function Suggestions(ws: seq<Workspace>, query: string, recent: seq<string>): (r: seq<string>)
    ensures |r| <= 3
    ensures query == "" ==> r == []
  {
    if |query| > 0 then Take(RecentMatches(recent, query) + NewNames(ws, recent, query), 3) else []
  }

  datatype View = View(orderedWorkspaces: seq<Workspace>, hasResults: bool, suggestions: seq<string>)

  /** The whole derivation. A query is "set" when it is not the empty string. */
  function Derive(ws: seq<Workspace>, query: string, recent: seq<string>): (v: View)
    ensures v.hasResults <==> |v.orderedWorkspaces| > 0
  {
    var display := Displayed(ws, query);
    View(display, |display| > 0, Suggestions(ws, query, recent))
  }

  /** `orderedWorkspaces`: the search results while a query is set, the browse
      order otherwise. */
  function Displayed(ws: seq<Workspace>, query: string): (r: seq<Workspace>)
    ensures query != "" ==> forall i :: 0 <= i < |r| ==> Matches(r[i], query)
    ensures query == "" && Current(ws).Some? ==> |r| > 0 && r[0] == Current(ws).value
  {
    if query != "" then SearchResults(ws, query) else BrowseOrder(ws)
  }

  /** Favourites come before the others; within each group, `le` decides. */
  function FavoriteFirst(le: (Workspace, Workspace) -> bool): (Workspace, Workspace) -> bool {
    (a: Workspace, b: Workspace) => (a.isFavorite && !b.isFavorite) || (a.isFavorite == b.isFavorite && le(a, b))
  }

  /** With an empty query the list starts with the first active record, if
      any; the rest are exactly the inactive records, favourites first and
      each group in name order. */
  lemma BrowseOrderArrangement(ws: seq<Workspace>)
    ensures var r := BrowseOrder(ws); var k := |CurrentPrefix(ws)|;
      k <= |r| && r[..k] == CurrentPrefix(ws) &&
      (forall i :: k <= i < |r| ==> !r[i].isActive) &&
      Sorted(r[k..], FavoriteFirst(NameLe)) &&
      multiset(r[k..]) == multiset(Filter(ws, IsInactive))
  {
    GroupsSortedByName(ws);
    ArrangementBy(ws, NameLe);
  }

  /** Both groups come out of the sort in name order. */
  lemma GroupsSortedByName(ws: seq<Workspace>)
    ensures var others := Filter(ws, IsInactive);
      Sorted(Sort(Filter(others, IsFavorite), NameLe), NameLe) &&
      Sorted(Sort(Filter(others, IsNotFavorite), NameLe), NameLe)
  {
    NameLeIsTotalPreorder();
    var others := Filter(ws, IsInactive);
    SortIsSorted(Filter(others, IsFavorite), NameLe);
    SortIsSorted(Filter(others, IsNotFavorite), NameLe);
  }

  lemma ArrangementBy(ws: seq<Workspace>, le: (Workspace, Workspace) -> bool)
    requires var others := Filter(ws, IsInactive);
      Sorted(Sort(Filter(others, IsFavorite), le), le) &&
      Sorted(Sort(Filter(others, IsNotFavorite), le), le)
    ensures var r := BrowseOrderBy(ws, le); var k := |CurrentPrefix(ws)|;
      k <= |r| && r[..k] == CurrentPrefix(ws) &&
      (forall i :: k <= i < |r| ==> !r[i].isActive) &&
      Sorted(r[k..], FavoriteFirst(le)) &&
      multiset(r[k..]) == multiset(Filter(ws, IsInactive))
  {
    var r := BrowseOrderBy(ws, le);
    var k := |CurrentPrefix(ws)|;
    assert r[..k] == CurrentPrefix(ws) && r[k..] == Groups(ws, le);
    GroupsArranged(ws, le);
  }

  lemma GroupsArranged(ws: seq<Workspace>, le: (Workspace, Workspace) -> bool)
    requires var others := Filter(ws, IsInactive);
      Sorted(Sort(Filter(others, IsFavorite), le), le) &&
      Sorted(Sort(Filter(others, IsNotFavorite), le), le)
    ensures var g := Groups(ws, le);
      (forall i :: 0 <= i < |g| ==> !g[i].isActive) &&
      Sorted(g, FavoriteFirst(le)) &&
      multiset(g) == multiset(Filter(ws, IsInactive))
  {
    var others := Filter(ws, IsInactive);
    var starred := Sort(Filter(others, IsFavorite), le);
    var unstarred := Sort(Filter(others, IsNotFavorite), le);
    assert Groups(ws, le) == starred + unstarred;
    GroupFlags(ws, IsFavorite, true, le);
    GroupFlags(ws, IsNotFavorite, false, le);
    forall i | 0 <= i < |starred| ensures starred[i].isFavorite && !starred[i].isActive {
      assert starred[i] in starred;
    }
    forall i | 0 <= i < |unstarred| ensures !unstarred[i].isFavorite && !unstarred[i].isActive {
      assert unstarred[i] in unstarred;
    }
    ConcatGroups(starred, unstarred, le);
    FilterSplit(others, IsFavorite, IsNotFavorite);
  }

  /** A group holds inactive records whose favourite flag is `flag`. */
  lemma GroupFlags(ws: seq<Workspace>, group: Workspace -> bool, flag: bool, le: (Workspace, Workspace) -> bool)
    requires forall w :: group(w) == (w.isFavorite == flag)
    ensures forall x :: x in Sort(Filter(Filter(ws, IsInactive), group), le) ==> x.isFavorite == flag && !x.isActive
  {
    var others := Filter(ws, IsInactive);
    GroupMembers(others, group, le);
    FilterMembers(ws, IsInactive);
  }

  /** Every member of a sorted group passes the group's test and is one of `others`. */
  lemma GroupMembers(others: seq<Workspace>, group: Workspace -> bool, le: (Workspace, Workspace) -> bool)
    ensures forall x :: x in Sort(Filter(others, group), le) ==> group(x) && x in others
  {
    var f := Filter(others, group);
    FilterMembers(others, group);
    forall x | x in Sort(f, le) ensures group(x) && x in others {
      assert x in multiset(Sort(f, le));
    }
  }

  /** Favourites sorted by `le` followed by non-favourites sorted by `le`
      are sorted favourites-first. */
  lemma ConcatGroups(starred: seq<Workspace>, unstarred: seq<Workspace>, le: (Workspace, Workspace) -> bool)
    requires Sorted(starred, le) && Sorted(unstarred, le)
    requires forall i :: 0 <= i < |starred| ==> starred[i].isFavorite && !starred[i].isActive
    requires forall i :: 0 <= i < |unstarred| ==> !unstarred[i].isFavorite && !unstarred[i].isActive
    ensures Sorted(starred + unstarred, FavoriteFirst(le))
    ensures forall i :: 0 <= i < |starred + unstarred| ==> !(starred + unstarred)[i].isActive
  {
    var both := starred + unstarred;
    forall i, j | 0 <= i < j < |both| ensures FavoriteFirst(le)(both[i], both[j]) {
      if j < |starred| {
        assert both[i] == starred[i] && both[j] == starred[j];
      } else if i >= |starred| {
        assert both[i] == unstarred[i - |starred|] && both[j] == unstarred[j - |starred|];
      } else {
        assert both[i] == starred[i] && both[j] == unstarred[j - |starred|];
      }
    }
    forall i | 0 <= i < |both| ensures !both[i].isActive {
      if i < |starred| {
        assert both[i] == starred[i];
      } else {
        assert both[i] == unstarred[i - |starred|];
      }
    }
  }

  /** The two groups together hold exactly the inactive records. */
  lemma GroupsMultiset(ws: seq<Workspace>, le: (Workspace, Workspace) -> bool)
    ensures multiset(Groups(ws, le)) == multiset(Filter(ws, IsInactive))
  {
    FilterSplit(Filter(ws, IsInactive), IsFavorite, IsNotFavorite);
  }

  /** With an empty query the list holds every inactive record and one
      active record, if there is any. */
  lemma BrowseOrderLength(ws: seq<Workspace>)
    ensures |BrowseOrder(ws)| == |ws| - |Filter(ws, IsActive)| + (if Filter(ws, IsActive) == [] then 0 else 1)
  {
    CurrentIsFirstActive(ws);
    GroupsMultiset(ws, NameLe);
    FilterSplit(ws, IsActive, IsInactive);
    assert |Groups(ws, NameLe)| == |multiset(Groups(ws, NameLe))|;
  }

  /** With an empty query the list is a permutation of `workspaces` exactly
      when at most one record is active. */
  lemma BrowseOrderPermutation(ws: seq<Workspace>)
    ensures multiset(BrowseOrder(ws)) == multiset(ws) <==> |Filter(ws, IsActive)| <= 1
  {
    if |Filter(ws, IsActive)| <= 1 {
      BrowseOrderHoldsAll(ws);
    } else {
      BrowseOrderLength(ws);
      assert |multiset(BrowseOrder(ws))| < |multiset(ws)|;
    }
  }

  /** With at most one active record, the ordered list for an empty query
      holds every record. */
  lemma BrowseOrderHoldsAll(ws: seq<Workspace>)
    requires |Filter(ws, IsActive)| <= 1
    ensures multiset(BrowseOrder(ws)) == multiset(ws)
  {
    var active := Filter(ws, IsActive);
    assert BrowseOrder(ws) == CurrentPrefix(ws) + Groups(ws, NameLe);
    assert multiset(CurrentPrefix(ws)) == multiset(active) by {
      CurrentIsFirstActive(ws);
      if active != [] {
        assert active == [active[0]];
      }
    }
    GroupsMultiset(ws, NameLe);
    FilterSplit(ws, IsActive, IsInactive);
  }

  /** With a query, the list is the subsequence of `workspaces`, in its
      original order, of the records that match, each kept as often as it
      occurs there. */
  lemma SearchResultsCharacterized(ws: seq<Workspace>, query: string)
    ensures Subsequence(SearchResults(ws, query), ws)
    ensures forall i :: 0 <= i < |SearchResults(ws, query)| ==> Matches(SearchResults(ws, query)[i], query)
    ensures forall w :: multiset(SearchResults(ws, query))[w] == if Matches(w, query) then multiset(ws)[w] else 0
  {
    FilterCharacterized(ws, MatchesQuery(query));
  }

  /** `hasResults` holds exactly when some record matches the query or,
      with an empty query, when there is any record at all. */
  lemma HasResultsIff(ws: seq<Workspace>, query: string, recent: seq<string>)
    ensures Derive(ws, query, recent).hasResults <==>
      if query != "" then exists i :: 0 <= i < |ws| && Matches(ws[i], query) else |ws| > 0
  {
    if query != "" {
      var r := SearchResults(ws, query);
      FilterMembers(ws, MatchesQuery(query));
      if |r| > 0 {
        assert r[0] in r;
        var i :| 0 <= i < |ws| && ws[i] == r[0];
        assert Matches(ws[i], query);
      }
      if i :| 0 <= i < |ws| && Matches(ws[i], query) {
        assert ws[i] in r;
      }
    } else {
      BrowseOrderLength(ws);
      FilterSplit(ws, IsActive, IsInactive);
    }
  }

  /** The search ignores the letter case of the query. */
  lemma SearchIgnoresCase(ws: seq<Workspace>, query: string, other: string)
    requires ToLower(query) == ToLower(other)
    ensures SearchResults(ws, query) == SearchResults(ws, other)
  {
    FilterCongruent(ws, MatchesQuery(query), MatchesQuery(other));
  }

  /** Searching for the lower-cased query finds the same records. */
  lemma SearchByLoweredQuery(ws: seq<Workspace>, query: string)
    ensures SearchResults(ws, ToLower(query)) == SearchResults(ws, query)
  {
    ToLowerIdempotent(query);
    SearchIgnoresCase(ws, ToLower(query), query);
  }

  /** Suggestions for a set query: as many as there are matching recent
      searches and new matching names together, but at most three; the
      matching recent searches first, in their order, then the new matching
      names in theirs (`NewNamesComplete`). Each contains the query, and
      every entry after the recent searches is the name of a workspace that
      is not already a recent search. */
  lemma SuggestionsShape(ws: seq<Workspace>, query: string, recent: seq<string>)
    ensures query != "" ==>
              |Suggestions(ws, query, recent)| ==
                if 3 < |RecentMatches(recent, query)| + |NewNames(ws, recent, query)| then 3
                else |RecentMatches(recent, query)| + |NewNames(ws, recent, query)|
    ensures forall i :: 0 <= i < |Suggestions(ws, query, recent)| ==>
      Includes(ToLower(Suggestions(ws, query, recent)[i]), ToLower(query))
    ensures forall i :: 0 <= i < |Suggestions(ws, query, recent)| && i < |RecentMatches(recent, query)| ==>
      Suggestions(ws, query, recent)[i] == RecentMatches(recent, query)[i]
    ensures forall i :: 0 <= i < |Suggestions(ws, query, recent)| && |RecentMatches(recent, query)| <= i ==>
      i - |RecentMatches(recent, query)| < |NewNames(ws, recent, query)| &&
      Suggestions(ws, query, recent)[i] == NewNames(ws, recent, query)[i - |RecentMatches(recent, query)|] &&
      Suggestions(ws, query, recent)[i] !in recent &&
      exists j :: 0 <= j < |ws| && ws[j].name == Suggestions(ws, query, recent)[i]
  {
    if query != "" {
      var all := RecentMatches(recent, query) + NewNames(ws, recent, query);
      assert Suggestions(ws, query, recent) == Take(all, 3);
      assert |all| == |RecentMatches(recent, query)| + |NewNames(ws, recent, query)|;
    }
    forall i | 0 <= i < |Suggestions(ws, query, recent)| {
      SuggestionAt(ws, query, recent, i);
    }
  }

  /** One entry of the suggestions. */
  lemma SuggestionAt(ws: seq<Workspace>, query: string, recent: seq<string>, i: nat)
    requires i < |Suggestions(ws, query, recent)|
    ensures var r := Suggestions(ws, query, recent); var rm := RecentMatches(recent, query);
      var nn := NewNames(ws, recent, query);
      Includes(ToLower(r[i]), ToLower(query)) &&
      (i < |rm| ==> r[i] == rm[i]) &&
      (|rm| <= i ==>
         i - |rm| < |nn| && r[i] == nn[i - |rm|] && r[i] !in recent &&
         exists j :: 0 <= j < |ws| && ws[j].name == r[i])
  {
    var r := Suggestions(ws, query, recent);
    var rm := RecentMatches(recent, query);
    var nn := NewNames(ws, recent, query);
    assert r == Take(rm + nn, 3);
    TakeConcatAt(rm, nn, 3, i);
    if i < |rm| {
      assert SearchMatches(query)(rm[i]);
    } else {
      NewNameFacts(ws, recent, query, i - |rm|);
    }
  }

  /** An entry of the new names contains the query, is not a recent search
      and names a workspace. */
  lemma NewNameFacts(ws: seq<Workspace>, recent: seq<string>, query: string, n: nat)
    requires n < |NewNames(ws, recent, query)|
    ensures var name := NewNames(ws, recent, query)[n];
      Includes(ToLower(name), ToLower(query)) && name !in recent &&
      exists j :: 0 <= j < |ws| && ws[j].name == name
  {
    var named := Filter(ws, NameMatchesQuery(query));
    var name := NewNames(ws, recent, query)[n];
    assert NotIn(recent)(name);
    FilterMembers(Names(named), NotIn(recent));
    assert name in Names(named);
    var k :| 0 <= k < |named| && Names(named)[k] == name;
    assert NameMatchesQuery(query)(named[k]);
    FilterMembers(ws, NameMatchesQuery(query));
    assert named[k] in named;
    var j :| 0 <= j < |ws| && ws[j] == named[k];
  }

  /** A name that contains the query and is not a recent search. */
  function NewNameOf(recent: seq<string>, query: string): string -> bool {
    (s: string) => Includes(ToLower(s), ToLower(query)) && s !in recent
  }

  /** `map(w => w.name)` after a filter that looks only at names is the
      filter applied to the names. */
  lemma {:induction false} NamesOfFilter(ws: seq<Workspace>, wp: Workspace -> bool, p: string -> bool)
    requires forall w :: wp(w) == p(w.name)
    ensures Names(Filter(ws, wp)) == Filter(Names(ws), p)
  {
    if ws != [] {
      NamesOfFilter(ws[1..], wp, p);
      assert Names(ws)[1..] == Names(ws[1..]);
      if wp(ws[0]) {
        assert Filter(ws, wp)[1..] == Filter(ws[1..], wp);
      }
    }
  }

  /** The new names are the workspace names, in workspace order, that
      contain the query and are not recent searches. */
  lemma NewNamesCharacterized(ws: seq<Workspace>, recent: seq<string>, query: string)
    ensures NewNames(ws, recent, query) == Filter(Names(ws), NewNameOf(recent, query))
  {
    NamesOfFilter(ws, NameMatchesQuery(query), SearchMatches(query));
    FilterFilter(Names(ws), SearchMatches(query), NotIn(recent), NewNameOf(recent, query));
  }

  /** Every workspace whose name contains the query and is not a recent
      search has its name among the new names, and only those; the new names
      keep the workspaces' order. */
  lemma NewNamesComplete(ws: seq<Workspace>, recent: seq<string>, query: string)
    ensures Subsequence(NewNames(ws, recent, query), Names(ws))
    ensures forall j :: 0 <= j < |ws| ==>
      (ws[j].name in NewNames(ws, recent, query) <==> Includes(ToLower(ws[j].name), ToLower(query)) && ws[j].name !in recent)
  {
    var p := NewNameOf(recent, query);
    var names := Names(ws);
    var nn := NewNames(ws, recent, query);
    NewNamesCharacterized(ws, recent, query);
    FilterCharacterized(names, p);
    FilterMembers(names, p);
    forall j | 0 <= j < |ws|
      ensures ws[j].name in nn <==> Includes(ToLower(ws[j].name), ToLower(query)) && ws[j].name !in recent
    {
      assert names[j] == ws[j].name;
      assert ws[j].name in names;
      assert p(ws[j].name) <==> Includes(ToLower(ws[j].name), ToLower(query)) && ws[j].name !in recent;
    }
  }

  /** The new names list a name as often as the workspaces carry it, when
      it contains the query and is not a recent search, and never otherwise. */
  lemma NewNamesCounts(ws: seq<Workspace>, recent: seq<string>, query: string)
    ensures forall n ::
              multiset(NewNames(ws, recent, query))[n] ==
                (if Includes(ToLower(n), ToLower(query)) && n !in recent then multiset(Names(ws))[n] else 0)
  {
    NewNamesCharacterized(ws, recent, query);
    FilterCharacterized(Names(ws), NewNameOf(recent, query));
  }

  /** No two different records share a name. */
  predicate NamesIdentify(ws: seq<Workspace>) {
    forall i, j :: 0 <= i < |ws| && 0 <= j < |ws| && ws[i].name == ws[j].name ==> ws[i] == ws[j]
  }

  /** Reordering the records does not change which one is current, while at
      most one is active. */
  lemma CurrentAgrees(ws: seq<Workspace>, ws2: seq<Workspace>)
    requires multiset(ws) == multiset(ws2) && |Filter(ws, IsActive)| <= 1
    ensures Current(ws) == Current(ws2)
  {
    var a := Filter(ws, IsActive);
    var b := Filter(ws2, IsActive);
    FilterPermutation(ws, ws2, IsActive);
    CurrentIsFirstActive(ws);
    CurrentIsFirstActive(ws2);
    assert |a| == |multiset(a)| == |multiset(b)| == |b|;
    if |a| == 1 {
      assert a == [a[0]] && b == [b[0]];
      assert multiset(a) == multiset{a[0]} && multiset(b) == multiset{b[0]};
    }
  }

  /** Name ties among the records of `ws` are between equal records. */
  lemma NameTiesIdentical(ws: seq<Workspace>, a: seq<Workspace>)
    requires NamesIdentify(ws) && forall x :: x in a ==> x in ws
    ensures forall x, y :: x in a && y in a && NameLe(x, y) && NameLe(y, x) ==> x == y
  {
    forall x, y | x in a && y in a && NameLe(x, y) && NameLe(y, x) ensures x == y {
      CompareAntisymmetric(x.name, y.name);
      CompareZeroIff(x.name, y.name);
      var i :| 0 <= i < |ws| && ws[i] == x;
      var j :| 0 <= j < |ws| && ws[j] == y;
    }
  }

  /** Reordering the records does not change a sorted group. */
  lemma GroupAgrees(ws: seq<Workspace>, ws2: seq<Workspace>, group: Workspace -> bool)
    requires multiset(ws) == multiset(ws2) && NamesIdentify(ws)
    ensures Sort(Filter(Filter(ws, IsInactive), group), NameLe) == Sort(Filter(Filter(ws2, IsInactive), group), NameLe)
  {
    var a := Filter(Filter(ws, IsInactive), group);
    var b := Filter(Filter(ws2, IsInactive), group);
    FilterPermutation(ws, ws2, IsInactive);
    FilterPermutation(Filter(ws, IsInactive), Filter(ws2, IsInactive), group);
    FilterMembers(ws, IsInactive);
    FilterMembers(Filter(ws, IsInactive), group);
    NameTiesIdentical(ws, a);
    NameLeIsTotalPreorder();
    SortForgetsOrder(a, b, NameLe);
  }

  /** With an empty query the displayed list depends only on which records
      there are, not on their order, when at most one is active and no two
      different records share a name. */
  lemma BrowseOrderForgetsOrder(ws: seq<Workspace>, ws2: seq<Workspace>)
    requires multiset(ws) == multiset(ws2)
    requires |Filter(ws, IsActive)| <= 1 && NamesIdentify(ws)
    ensures BrowseOrder(ws) == BrowseOrder(ws2)
  {
    CurrentAgrees(ws, ws2);
    GroupAgrees(ws, ws2, IsFavorite);
    GroupAgrees(ws, ws2, IsNotFavorite);
  }

  /** A drag reorders the underlying list but not the ordered list while the
      query is empty. */
  lemma DragKeepsBrowseOrder(ws: seq<Workspace>, activeId: Id, overId: Id)
    requires HasId(ws, activeId) && HasId(ws, overId)
    requires |Filter(ws, IsActive)| <= 1 && NamesIdentify(ws)
    ensures BrowseOrder(DragEnd(ws, activeId, overId)) == BrowseOrder(ws)
  {
    BrowseOrderForgetsOrder(ws, DragEnd(ws, activeId, overId));
  }

  /** Toggling a star neither adds nor drops search results nor reorders
      them: it only toggles the star on the results with that id. */
  lemma {:induction false} ToggleCommutesWithSearch(ws: seq<Workspace>, id: Id, query: string)
    ensures SearchResults(ToggleFavorite(ws, id), query) == ToggleFavorite(SearchResults(ws, query), id)
  {
    if ws != [] {
      var w := ws[0];
      var rest := ws[1..];
      assert ws == [w] + rest;
      ToggleCommutesWithSearch(rest, id, query);
      ToggleCons(w, rest, id);
      FilterCons(Toggled(w, id), ToggleFavorite(rest, id), MatchesQuery(query));
      FilterCons(w, rest, MatchesQuery(query));
      assert Matches(Toggled(w, id), query) == Matches(w, query);
      if Matches(w, query) {
        ToggleCons(w, SearchResults(rest, query), id);
      }
    }
  }

  /** Toggling a star does not change the length of the ordered list. */
  lemma ToggleKeepsListLength(ws: seq<Workspace>, id: Id, query: string)
    ensures |Displayed(ToggleFavorite(ws, id), query)| == |Displayed(ws, query)|
  {
    var t := ToggleFavorite(ws, id);
    if query != "" {
      ToggleCommutesWithSearch(ws, id, query);
    } else {
      BrowseOrderLength(ws);
      BrowseOrderLength(t);
      FilterSameVerdicts(ws, t, IsActive);
    }
  }

  /** Reordering the records does not change the length of the ordered list. */
  lemma PermutationKeepsListLength(ws: seq<Workspace>, ws2: seq<Workspace>, query: string)
    requires multiset(ws) == multiset(ws2)
    ensures |Displayed(ws2, query)| == |Displayed(ws, query)|
  {
    if query != "" {
      FilterPermutationLength(ws, ws2, MatchesQuery(query));
    } else {
      BrowseOrderLength(ws);
      BrowseOrderLength(ws2);
      FilterPermutationLength(ws, ws2, IsActive);
      assert |ws| == |multiset(ws)| == |multiset(ws2)| == |ws2|;
      assert Filter(ws, IsActive) == [] <==> Filter(ws2, IsActive) == [];
    }
  }

  /** With unique ids, selecting a present id leaves one record active, so
      the ordered list for an empty query holds every record: at least as
      many entries as before. */
  lemma SelectListsAll(ws: seq<Workspace>, id: Id)
    requires UniqueIds(ws) && HasId(ws, id)
    ensures |BrowseOrder(SetActive(ws, id))| == |ws|
    ensures |BrowseOrder(ws)| <= |ws|
  {
    var k :| 0 <= k < |ws| && ws[k].id == id;
    SetActiveMakesCurrent(ws, k);
    BrowseOrderLength(SetActive(ws, id));
    BrowseOrderLength(ws);
    FilterSplit(ws, IsActive, IsInactive);
  }

  /** A new inactive record adds one entry to the ordered list for an empty
      query. */
  lemma PrependInactiveAddsRow(ws: seq<Workspace>, w: Workspace)
    requires !w.isActive
    ensures |BrowseOrder([w] + ws)| == |BrowseOrder(ws)| + 1
  {
    FilterCons(w, ws, IsActive);
    BrowseOrderLength([w] + ws);
    BrowseOrderLength(ws);
  }

  /** Every entry of the ordered list is one of the records. */
  lemma ListedAreWorkspaces(ws: seq<Workspace>, query: string)
    ensures forall x :: x in Displayed(ws, query) ==> x in ws
  {
    if query != "" {
      FilterMembers(ws, MatchesQuery(query));
    } else {
      GroupsMultiset(ws, NameLe);
      FilterMembers(ws, IsInactive);
      forall x | x in BrowseOrder(ws) ensures x in ws {
        if x !in CurrentPrefix(ws) {
          assert x in Groups(ws, NameLe);
          assert x in multiset(Groups(ws, NameLe));
        }
      }
    }
  }
}
