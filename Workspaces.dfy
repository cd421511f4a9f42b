/** The workspace record and the pure list transformations that the
    switcher's event handlers hand to `setWorkspaces` and `setRecentSearches`. */
module Workspaces {
  import opened Seqs

  datatype Option<T> = None | Some(value: T)

  type Id = string

  datatype Member = Member(id: string, name: string, avatar: string)

  /** One workspace as the switcher holds it. `kind` is the record's `type`
      field ("personal", "private", "team" or "public"); `teamName` is the
      optional team a record names (absent on most records). Only `id`,
      `name`, `creator`, `isFavorite` and `isActive` take part in the
      switcher's logic; the other fields are carried along unchanged. */
  datatype Workspace = Workspace(
    id: Id,
    name: string,
    kind: string,
    creator: string,
    teamName: Option<string>,
    isFavorite: bool,
    isActive: bool,
    memberCount: int,
    lastActivity: string,
    hasNotifications: bool,
    description: string,
    collectionsCount: int,
    members: seq<Member>)

  predicate IsActive(w: Workspace) { w.isActive }

  predicate HasId(ws: seq<Workspace>, id: Id) {
    exists i :: 0 <= i < |ws| && ws[i].id == id
  }

  /** No two records share an id. */
  predicate UniqueIds(ws: seq<Workspace>) {
    forall i, j :: 0 <= i < j < |ws| ==> ws[i].id != ws[j].id
  }

  /** `workspaces.find(w => w.isActive)`: the first active record, if any. */
  function Current(ws: seq<Workspace>): (r: Option<Workspace>)
    ensures r.None? <==> forall i :: 0 <= i < |ws| ==> !ws[i].isActive
    ensures r.Some? ==> r.value in ws && r.value.isActive
  {
    if ws == [] then None
    else if ws[0].isActive then Some(ws[0])
    else Current(ws[1..])
  }

  /** The record `find` returns is the head of the active records. */
  lemma {:induction false} CurrentIsFirstActive(ws: seq<Workspace>)
    ensures Current(ws) == if Filter(ws, IsActive) == [] then None else Some(Filter(ws, IsActive)[0])
  {
    if ws != [] && !ws[0].isActive {
      CurrentIsFirstActive(ws[1..]);
    }
  }

  /** `handleToggleFavorite`: flips `isFavorite` on the records with the
      given id and leaves every other field, the length and the order alone. */
  function ToggleFavorite(ws: seq<Workspace>, id: Id): (r: seq<Workspace>)
    ensures |r| == |ws|
    ensures forall i :: 0 <= i < |ws| ==> r[i].isFavorite == (ws[i].isFavorite != (ws[i].id == id))
    ensures forall i :: 0 <= i < |ws| ==> r[i].(isFavorite := ws[i].isFavorite) == ws[i]
  {
    if ws == [] then [] else [Toggled(ws[0], id)] + ToggleFavorite(ws[1..], id)
  }

  /** One record after toggling `id`. */
  function Toggled(w: Workspace, id: Id): Workspace {
    if w.id == id then w.(isFavorite := !w.isFavorite) else w
  }

  lemma ToggleCons(w: Workspace, ws: seq<Workspace>, id: Id)
    ensures ToggleFavorite([w] + ws, id) == [Toggled(w, id)] + ToggleFavorite(ws, id)
  {
    assert ([w] + ws)[1..] == ws;
  }

  /** Toggling the same id twice restores the list. */
  lemma ToggleFavoriteTwice(ws: seq<Workspace>, id: Id)
    ensures ToggleFavorite(ToggleFavorite(ws, id), id) == ws
  {
    var once := ToggleFavorite(ws, id);
    var twice := ToggleFavorite(once, id);
    forall i | 0 <= i < |ws| ensures twice[i] == ws[i] {
      assert once[i].id == ws[i].id;
    }
  }

  function NotId(id: Id): Workspace -> bool {
    (w: Workspace) => w.id != id
  }

  /** `handleRemoveFromList`: drops the records with the workspace's id. */
  function RemoveById(ws: seq<Workspace>, id: Id): (r: seq<Workspace>)
    ensures forall w :: w in r <==> w in ws && w.id != id
  {
    FilterMembers(ws, NotId(id));
    Filter(ws, NotId(id))
  }

  /** Removal keeps every other record, as often as it occurred, in its
      original relative order. */
  lemma RemoveKeepsOthers(ws: seq<Workspace>, id: Id)
    ensures Subsequence(RemoveById(ws, id), ws)
    ensures forall w: Workspace :: w.id != id ==> multiset(RemoveById(ws, id))[w] == multiset(ws)[w]
    ensures !HasId(RemoveById(ws, id), id)
  {
    FilterCharacterized(ws, NotId(id));
    var r := RemoveById(ws, id);
    forall i | 0 <= i < |r| ensures r[i].id != id {
      assert r[i] in r;
    }
  }

  /** `handleSelectWorkspace`'s list update: a record is active exactly when
      it has the chosen id; nothing else changes. */
  function SetActive(ws: seq<Workspace>, id: Id): (r: seq<Workspace>)
    ensures |r| == |ws|
    ensures forall i :: 0 <= i < |ws| ==> r[i].isActive == (ws[i].id == id)
    ensures forall i :: 0 <= i < |ws| ==> r[i].(isActive := ws[i].isActive) == ws[i]
  {
    if ws == [] then [] else [ws[0].(isActive := ws[0].id == id)] + SetActive(ws[1..], id)
  }

  /** With unique ids, selecting an id that is present leaves exactly that
      record active, and it becomes the current workspace. */
  lemma {:induction false} SetActiveMakesCurrent(ws: seq<Workspace>, k: nat)
    requires UniqueIds(ws) && k < |ws|
    ensures Filter(SetActive(ws, ws[k].id), IsActive) == [ws[k].(isActive := true)]
    ensures Current(SetActive(ws, ws[k].id)) == Some(ws[k].(isActive := true))
  {
    var r := SetActive(ws, ws[k].id);
    forall j | 0 <= j < |r| && j != k ensures !IsActive(r[j]) {
      assert ws[j].id != ws[k].id;
    }
    FilterSingle(r, IsActive, k);
    CurrentIsFirstActive(r);
  }

  /** The record `handleCreateWorkspace` builds for a new workspace. */
  function NewWorkspace(id: Id, name: string): (w: Workspace)
    ensures w.id == id && w.name == name && w.creator == "You"
    ensures !w.isActive && !w.isFavorite && w.teamName.None?
  {
    Workspace(
      id := id,
      name := name,
      kind := "personal",
      creator := "You",
      teamName := None,
      isFavorite := false,
      isActive := false,
      memberCount := 1,
      lastActivity := "now",
      hasNotifications := false,
      description := "New workspace: " + name,
      collectionsCount := 0,
      members := [Member("me", "You", CurrentUserAvatar)])
  }

  /** `generateAvatarUrl("current-user")`; the seed needs no percent-encoding. */
  const CurrentUserAvatar: string :=
    "https://api.dicebear.com/7.x/avataaars/svg?seed=current-user&backgroundColor=b6e3f4,c0aede,d1d4f9,ffd5dc,ffdfbf"

  /** `handleSelectWorkspace`'s update of the recent searches: a non-empty
      query not yet remembered goes to the front and the list keeps at most
      five entries; otherwise the list stays as it is. */
  function RememberSearch(recent: seq<string>, query: string): (r: seq<string>)
    ensures query == "" || query in recent ==> r == recent
    ensures query != "" && query !in recent ==> |r| > 0 && r[0] == query && r[1..] == Take(recent, 4)
  {
    if query != "" && query !in recent then [query] + Take(recent, 4) else recent
  }

  predicate NoDuplicates<T(==)>(s: seq<T>) {
    forall i, j :: 0 <= i < j < |s| ==> s[i] != s[j]
  }

  /** Remembering a search keeps the list within five entries, without
      duplicates, and afterwards a non-empty query is remembered. */
  lemma RememberSearchInvariant(recent: seq<string>, query: string)
    requires |recent| <= 5 && NoDuplicates(recent)
    ensures |RememberSearch(recent, query)| <= 5
    ensures NoDuplicates(RememberSearch(recent, query))
    ensures query != "" ==> query in RememberSearch(recent, query)
    ensures forall s :: s in RememberSearch(recent, query) ==> s in recent || s == query
  {
    var r := RememberSearch(recent, query);
    if query != "" && query !in recent {
      assert r == [query] + Take(recent, 4);
      forall i, j | 0 <= i < j < |r| ensures r[i] != r[j] {
        if i == 0 {
          assert r[j] == recent[j - 1];
        }
      }
    }
  }

  /** `findIndex(item => item.id === id)`: the first position holding the
      id, or -1 when there is none. */
  function FindIndex(ws: seq<Workspace>, id: Id): (r: int)
    ensures -1 <= r < |ws|
    ensures r == -1 <==> !HasId(ws, id)
    ensures r >= 0 ==> ws[r].id == id && forall j :: 0 <= j < r ==> ws[j].id != id
  {
    if ws == [] then -1
    else if ws[0].id == id then 0
    else
      var k := FindIndex(ws[1..], id);
      assert HasId(ws[1..], id) ==> HasId(ws, id);
      assert HasId(ws, id) ==> HasId(ws[1..], id);
      if k == -1 then -1 else k + 1
  }

  function RemoveAt<T>(s: seq<T>, i: nat): seq<T>
    requires i < |s|
  {
    s[..i] + s[i + 1..]
  }

  /** `arrayMove(s, from, to)` of @dnd-kit/sortable: the element at `from`
      is taken out and put back in at `to`; the rest keep their order. */
  function ArrayMove<T>(s: seq<T>, from: nat, to: nat): (r: seq<T>)
    requires from < |s| && to < |s|
    ensures |r| == |s| && r[to] == s[from]
    ensures RemoveAt(r, to) == RemoveAt(s, from)
    ensures multiset(r) == multiset(s)
  {
    var rest := RemoveAt(s, from);
    assert s == s[..from] + [s[from]] + s[from + 1..];
    var r := rest[..to] + [s[from]] + rest[to..];
    assert r[..to] == rest[..to] && r[to + 1..] == rest[to..];
    assert rest == rest[..to] + rest[to..];
    assert multiset(r) == multiset(rest) + multiset{s[from]};
    r
  }

  /** Moving an element back where it came from undoes the move. */
  lemma ArrayMoveInverse<T>(s: seq<T>, from: nat, to: nat)
    requires from < |s| && to < |s|
    ensures ArrayMove(ArrayMove(s, from, to), to, from) == s
  {
    var r := ArrayMove(s, from, to);
    var back := ArrayMove(r, to, from);
    assert RemoveAt(back, from) == RemoveAt(s, from);
    assert back[from] == s[from];
    assert back == back[..from] + [back[from]] + back[from + 1..];
    assert s == s[..from] + [s[from]] + s[from + 1..];
  }

  /** `handleDragEnd`: when the dragged record was dropped on another one,
      it is moved to that record's position; dropping on itself changes
      nothing. Both ids are ones of records in the list. */
  function DragEnd(ws: seq<Workspace>, activeId: Id, overId: Id): (r: seq<Workspace>)
    requires HasId(ws, activeId) && HasId(ws, overId)
    ensures |r| == |ws| && multiset(r) == multiset(ws)
    ensures activeId == overId ==> r == ws
    ensures activeId != overId ==>
      r[FindIndex(ws, overId)] == ws[FindIndex(ws, activeId)] &&
      RemoveAt(r, FindIndex(ws, overId)) == RemoveAt(ws, FindIndex(ws, activeId))
  {
    if activeId != overId then ArrayMove(ws, FindIndex(ws, activeId), FindIndex(ws, overId)) else ws
  }
}
