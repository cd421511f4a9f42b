/** Keyboard navigation of the open panel: the arrow keys move the
    highlighted row (`selectedIndex`, -1 when nothing is highlighted) and
    Enter picks what to do with it. */
module Navigation {
  import opened Workspaces
  import opened Derivation

  datatype Key = ArrowDown | ArrowUp | Enter | Escape | Other

  function Max(a: int, b: int): int {
    if a < b then b else a
  }

  /** The highlight is -1 or the index of a row of a list of length `len`
      (and -1 only, for an empty list). */
  predicate InRange(sel: int, len: int) {
    -1 <= sel <= Max(-1, len - 1)
  }

  /** ArrowDown: one row further, unless already at the last row. */
  function StepDown(sel: int, len: int): (r: int)
    ensures r == sel + 1 <==> sel < len - 1
    ensures r != sel + 1 ==> r == sel
    ensures InRange(sel, len) ==> InRange(r, len)
  {
    if sel < len - 1 then sel + 1 else sel
  }

  /** ArrowUp: one row back, unless at the first row or nothing is
      highlighted. */
  function StepUp(sel: int): (r: int)
    ensures r == sel - 1 <==> sel > 0
    ensures r != sel - 1 ==> r == sel
    ensures sel >= -1 ==> r >= -1
    ensures sel >= 0 ==> r >= 0
  {
    if sel > 0 then sel - 1 else sel
  }

  /** The highlight after a key; only the arrow keys move it. */
  function Step(key: Key, sel: int, len: int): int {
    match key
    case ArrowDown => StepDown(sel, len)
    case ArrowUp => StepUp(sel)
    case _ => sel
  }

  /** The highlight after a series of keys against a list of fixed length. */
  function Presses(keys: seq<Key>, sel: int, len: int): int
    decreases |keys|
  {
    if keys == [] then sel else Presses(keys[1..], Step(keys[0], sel, len), len)
  }

  /** Whatever keys are pressed, a highlight in range stays in range. */
  lemma {:induction false} PressesStayInRange(keys: seq<Key>, sel: int, len: int)
    requires InRange(sel, len)
    ensures InRange(Presses(keys, sel, len), len)
  {
    if keys != [] {
      var next := Step(keys[0], sel, len);
      assert InRange(next, len);
      PressesStayInRange(keys[1..], next, len);
    }
  }

  /** Once a row is highlighted, the arrow keys never clear the highlight. */
  lemma {:induction false} HighlightSticks(keys: seq<Key>, sel: int, len: int)
    requires sel >= 0
    ensures Presses(keys, sel, len) >= 0
  {
    if keys != [] {
      HighlightSticks(keys[1..], Step(keys[0], sel, len), len);
    }
  }

  /** Pressing ArrowDown `n` times moves the highlight `n` rows down, but
      not past the last row. */
  lemma {:induction false} DownPresses(n: nat, sel: int, len: int)
    requires sel >= -1
    ensures Presses(seq(n, _ => ArrowDown), sel, len) ==
      if sel >= len - 1 then sel else if sel + n <= len - 1 then sel + n else len - 1
  {
    var downs := seq(n, _ => ArrowDown);
    if n > 0 {
      assert downs[0] == ArrowDown && downs[1..] == seq(n - 1, _ => ArrowDown);
      DownPresses(n - 1, StepDown(sel, len), len);
    }
  }

  /** In particular, from no highlight, `n` ArrowDowns highlight row
      `min(n, len) - 1`. */
  lemma DownPressesFromNothing(n: nat, len: nat)
    ensures Presses(seq(n, _ => ArrowDown), -1, len) == (if n <= len then n else len) - 1
  {
    DownPresses(n, -1, len);
  }

  /** What Enter does. */
  datatype Action = SelectAction(workspace: Workspace) | CreateAction(name: string) | NoAction

  /** Enter selects the highlighted row when the highlight is in the list
      `rows`; otherwise it creates a workspace named after the query when the
      query is set and the list is empty (`hasResults` is false); otherwise
      it does nothing. */
  function EnterAction(rows: seq<Workspace>, sel: int, query: string): (a: Action)
    ensures a.SelectAction? <==> 0 <= sel < |rows|
    ensures a.SelectAction? ==> a.workspace == rows[sel]
    ensures a.CreateAction? <==> !(0 <= sel < |rows|) && query != "" && |rows| == 0
    ensures a.CreateAction? ==> a.name == query
  {
    if 0 <= sel < |rows| then SelectAction(rows[sel])
    else if query != "" && !(|rows| > 0) then CreateAction(query)
    else NoAction
  }

  /** On the derived view, Enter creates a workspace exactly when the query
      is set and no record's name or creator contains it, whatever row is
      highlighted. */
  lemma EnterCreatesOnlyWithoutMatches(ws: seq<Workspace>, query: string, recent: seq<string>, sel: int)
    ensures EnterAction(Derive(ws, query, recent).orderedWorkspaces, sel, query).CreateAction? <==>
      query != "" && forall i :: 0 <= i < |ws| ==> !Matches(ws[i], query)
  {
    HasResultsIff(ws, query, recent);
  }
}
