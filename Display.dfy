/** Small values of the switcher's file: whether a row may be removed and
    whether it shows the remove button, the member face pile's counts, the
    collections label, the trigger button's text, and the rows the panel
    renders. `MemberFacePile` and `CollectionsCount` are defined in the file
    but not rendered by the switcher itself. */
module Display {
  import opened Seqs
  import opened Sorting
  import opened Workspaces
  import opened Derivation
  import opened Navigation

  /** `canRemoveWorkspace`: a record may be removed unless it is active and
      not a favourite. */
  predicate CanRemove(w: Workspace) {
    !w.isActive || w.isFavorite
  }

  /** A row renders the remove button only in its non-favourite branch, and
      there only when `canRemoveWorkspace` holds. */
  predicate ShowsRemoveButton(w: Workspace) {
    !w.isFavorite && CanRemove(w)
  }

  /** With an empty query `canRemoveWorkspace` holds for every row after the
      first, and fails for the first exactly when it is the current
      workspace and that is not a favourite. */
  lemma BrowseRowsRemovable(ws: seq<Workspace>)
    ensures forall i :: 0 < i < |BrowseOrder(ws)| ==> CanRemove(BrowseOrder(ws)[i])
    ensures (|BrowseOrder(ws)| > 0 && !CanRemove(BrowseOrder(ws)[0])) <==>
      Current(ws).Some? && !Current(ws).value.isFavorite
  {
    BrowseOrderArrangement(ws);
    var r := BrowseOrder(ws);
    if Current(ws).Some? {
      assert r[..1] == [Current(ws).value];
      assert r[0] == Current(ws).value;
    }
  }

  /** With an empty query the remove button shows exactly on the
      non-favourite rows after the current workspace, and those rows form the
      end of the list: once a row shows it, every later row does. */
  lemma {:induction false} BrowseRemoveButtons(ws: seq<Workspace>)
    ensures var r := BrowseOrder(ws);
      forall i :: 0 <= i < |r| ==> (ShowsRemoveButton(r[i]) <==> |CurrentPrefix(ws)| <= i && !r[i].isFavorite)
    ensures var r := BrowseOrder(ws);
      forall i, j :: 0 <= i < j < |r| && ShowsRemoveButton(r[i]) ==> ShowsRemoveButton(r[j])
  {
    BrowseOrderArrangement(ws);
    CurrentPrefixActive(ws);
    RemoveButtonsOfArrangement(BrowseOrder(ws), CurrentPrefix(ws));
  }

  /** The button pattern of an arranged list: active rows `prefix` first,
      then inactive rows with the favourites first. */
  lemma RemoveButtonsOfArrangement(r: seq<Workspace>, prefix: seq<Workspace>)
    requires |prefix| <= |r| && r[..|prefix|] == prefix
    requires forall i :: 0 <= i < |prefix| ==> prefix[i].isActive
    requires forall i :: |prefix| <= i < |r| ==> !r[i].isActive
    requires Sorted(r[|prefix|..], FavoriteFirst(NameLe))
    ensures forall i :: 0 <= i < |r| ==> (ShowsRemoveButton(r[i]) <==> |prefix| <= i && !r[i].isFavorite)
    ensures forall i, j :: 0 <= i < j < |r| && ShowsRemoveButton(r[i]) ==> ShowsRemoveButton(r[j])
  {
    var k := |prefix|;
    forall i | 0 <= i < k ensures r[i].isActive {
      assert r[i] == r[..k][i];
    }
    NonFavoritesLast(r, k);
    RemoveButtonsFrom(r, k);
  }

  /** In a list sorted favourites-first from row `k` on, a non-favourite is
      followed only by non-favourites. */
  lemma NonFavoritesLast(r: seq<Workspace>, k: nat)
    requires k <= |r| && Sorted(r[k..], FavoriteFirst(NameLe))
    ensures forall i, j :: k <= i < j < |r| && !r[i].isFavorite ==> !r[j].isFavorite
  {
    forall i, j | k <= i < j < |r| && !r[i].isFavorite ensures !r[j].isFavorite {
      assert r[i] == r[k..][i - k] && r[j] == r[k..][j - k];
      assert FavoriteFirst(NameLe)(r[k..][i - k], r[k..][j - k]);
    }
  }

  /** The button pattern of a list whose first `k` rows are active and whose
      later rows are inactive with the favourites first. */
  lemma RemoveButtonsFrom(r: seq<Workspace>, k: nat)
    requires k <= |r|
    requires forall i :: 0 <= i < k ==> r[i].isActive
    requires forall i :: k <= i < |r| ==> !r[i].isActive
    requires forall i, j :: k <= i < j < |r| && !r[i].isFavorite ==> !r[j].isFavorite
    ensures forall i :: 0 <= i < |r| ==> (ShowsRemoveButton(r[i]) <==> k <= i && !r[i].isFavorite)
    ensures forall i, j :: 0 <= i < j < |r| && ShowsRemoveButton(r[i]) ==> ShowsRemoveButton(r[j])
  {
  }

  /** JavaScript's `s.slice(0, end)`: a negative `end` counts back from the
      end of `s`. */
  function SliceTo<T>(s: seq<T>, end: int): seq<T> {
    if end >= 0 then (if end < |s| then s[..end] else s)
    else if |s| + end > 0 then s[..|s| + end]
    else []
  }

  /** The avatars the face pile shows and the number on its "+n" badge. */
  datatype FacePile = FacePile(visible: seq<Member>, remaining: int)

  /** `MemberFacePile`'s counts (`maxVisible` defaults to three): the badge
      counts the members beyond the limit. */
  function MemberFacePile(members: seq<Member>, maxVisible: int): (p: FacePile)
    ensures p.remaining == Max(0, |members| - maxVisible)
    ensures |p.visible| <= |members| && p.visible == members[..|p.visible|]
  {
    FacePile(SliceTo(members, maxVisible), Max(0, |members| - maxVisible))
  }

  /** For a limit that is not negative, the avatars shown are the first
      members, as many as the limit allows, and with the badge they account
      for every member exactly once; the badge shows exactly when there are
      more members than the limit. */
  lemma FacePileAccountsForAll(members: seq<Member>, maxVisible: int)
    requires maxVisible >= 0
    ensures |MemberFacePile(members, maxVisible).visible| == if maxVisible < |members| then maxVisible else |members|
    ensures |MemberFacePile(members, maxVisible).visible| + MemberFacePile(members, maxVisible).remaining == |members|
    ensures MemberFacePile(members, maxVisible).remaining > 0 <==> |members| > maxVisible
  {
    if maxVisible < |members| {
      assert |members[..maxVisible]| == maxVisible;
    }
  }

  /** A negative limit, which the component never receives, would count
      members twice: the slice keeps all but the last few while the badge
      counts more than all of them. */
  lemma FacePileNegativeLimit(members: seq<Member>, maxVisible: int)
    requires maxVisible < 0 && |members| > 0
    ensures |MemberFacePile(members, maxVisible).visible| + MemberFacePile(members, maxVisible).remaining > |members|
  {
    var n := |members| + maxVisible;
    if n > 0 {
      assert |members[..n]| == n;
    }
  }

  function DigitChar(d: nat): (c: char)
    requires d < 10
    ensures '0' <= c <= '9'
  {
    ('0' as int + d) as char
  }

  /** The decimal digits of `n`, without leading zeros. */
  function NatToString(n: nat): (r: string)
    ensures |r| > 0 && (r[0] == '0' ==> n == 0)
    ensures forall i :: 0 <= i < |r| ==> '0' <= r[i] <= '9'
  {
    if n < 10 then [DigitChar(n)] else NatToString(n / 10) + [DigitChar(n % 10)]
  }

  /** An integer as JavaScript writes it in a template. */
  function IntToString(n: int): string {
    if n < 0 then "-" + NatToString(-n) else NatToString(n)
  }

  /** The number a string of decimal digits denotes. */
  function DigitsValue(s: string): nat
    requires forall i :: 0 <= i < |s| ==> '0' <= s[i] <= '9'
  {
    if s == [] then 0 else DigitsValue(s[..|s| - 1]) * 10 + (s[|s| - 1] as int - '0' as int)
  }

  /** The digits read back as the number written. */
  lemma {:induction false} NatToStringRoundTrip(n: nat)
    ensures DigitsValue(NatToString(n)) == n
  {
    if n >= 10 {
      var r := NatToString(n);
      var prefix := NatToString(n / 10);
      assert r[..|r| - 1] == prefix;
      NatToStringRoundTrip(n / 10);
    }
  }

  /** `CollectionsCount`'s text: the count, then "collection", with an "s"
      unless the count is one. */
  function CollectionsLabel(count: int): (r: string)
    ensures |r| > |IntToString(count)| && r[..|IntToString(count)|] == IntToString(count)
    ensures r[|r| - 1] == 's' <==> count != 1
  {
    IntToString(count) + " collection" + (if count != 1 then "s" else "")
  }

  /** The number at the head of a collections label reads back as the
      count. */
  lemma CollectionsLabelCount(count: nat)
    ensures var digits := CollectionsLabel(count)[..|NatToString(count)|];
      (forall i :: 0 <= i < |digits| ==> '0' <= digits[i] <= '9') && DigitsValue(digits) == count
  {
    NatToStringRoundTrip(count);
  }

  const NoWorkspaceLabel := "Select Workspace"

  /** The trigger button's text: the current workspace's name, or the
      placeholder when there is no current workspace or its name is empty. */
  function TriggerLabel(ws: seq<Workspace>): (r: string)
    ensures Current(ws).Some? && Current(ws).value.name != "" ==> r == Current(ws).value.name
    ensures Current(ws).None? || Current(ws).value.name == "" ==> r == NoWorkspaceLabel
  {
    match Current(ws)
    case Some(w) => if w.name != "" then w.name else NoWorkspaceLabel
    case None => NoWorkspaceLabel
  }

  /** With unique ids, after a record is selected the button shows its
      name, unless that name is empty. */
  lemma TriggerAfterSelect(ws: seq<Workspace>, k: nat)
    requires UniqueIds(ws) && k < |ws|
    ensures TriggerLabel(SetActive(ws, ws[k].id)) == if ws[k].name != "" then ws[k].name else NoWorkspaceLabel
  {
    SetActiveMakesCurrent(ws, k);
  }

  /** The panel renders at most this many rows of the derived list. */
  const RenderedRowLimit := 10

  /** `orderedWorkspaces.slice(0, 10)`: the rows the panel renders. */
  function RenderedRows(rows: seq<Workspace>): seq<Workspace> {
    Take(rows, RenderedRowLimit)
  }

  /** The arrow keys and Enter range over the whole derived list, not only
      the rows rendered: with more than ten rows, eleven ArrowDowns from no
      highlight reach the first row that is not rendered, and Enter then
      selects it. */
  lemma HighlightPassesRenderedRows(rows: seq<Workspace>, query: string)
    requires |rows| > RenderedRowLimit
    ensures var sel := Presses(seq(RenderedRowLimit + 1, _ => ArrowDown), -1, |rows|);
      sel == |RenderedRows(rows)| && EnterAction(rows, sel, query) == SelectAction(rows[sel])
  {
    DownPressesFromNothing(RenderedRowLimit + 1, |rows|);
  }
}
