/**
 * Linked size groups of a window: a table from a group id to the widgets
 * whose width and/or height are forced to be equal, and the shared value
 * of each axis (-1 when that axis is not linked).
 *
 * Widgets are opaque handles; the table never owns them.
 */
module LinkedSizes {

  /** An opaque handle of a widget owned by the widget tree. */
  type WidgetId = nat

  type GroupId = string

  /** One group: its members, and the shared width and height (-1 = axis not linked). */
  datatype LinkedSize = LinkedSize(widgets: seq<WidgetId>, width: int, height: int)
  {
    predicate WidthLinked() { width != -1 }
    predicate HeightLinked() { height != -1 }
  }

  type Table = map<GroupId, LinkedSize>

  /** The record a new group starts with: no members, 0 on a linked axis, -1 on the other. */
  function NewLinkedSize(fixedWidth: bool, fixedHeight: bool): (g: LinkedSize)
    ensures g.widgets == []
    ensures g.WidthLinked() <==> fixedWidth
    ensures g.HeightLinked() <==> fixedHeight
    ensures g.WidthLinked() ==> g.width == 0
    ensures g.HeightLinked() ==> g.height == 0
  {
    LinkedSize([], if fixedWidth then 0 else -1, if fixedHeight then 0 else -1)
  }

  /** No widget is listed twice in one group. */
  ghost predicate NoDuplicates(ws: seq<WidgetId>) {
    forall x :: multiset(ws)[x] <= 1
  }

  /** A group links at least one axis, and its sizes are -1 or a real size. */
  ghost predicate GroupValid(g: LinkedSize) {
    && g.width >= -1 && g.height >= -1
    && (g.WidthLinked() || g.HeightLinked())
    && NoDuplicates(g.widgets)
  }

  /** Every group is well formed and a widget is a member of at most one group. */
  ghost predicate Valid(m: Table) {
    && (forall id :: id in m ==> GroupValid(m[id]))
    && (forall a, b, x :: a in m && b in m && x in m[a].widgets && x in m[b].widgets ==> a == b)
  }

  predicate HasGroup(m: Table, id: GroupId) {
    id in m
  }

  /** The (width, height) of a group, or (-1, -1) for an id that names no group. */
  function GetLinkedSize(m: Table, id: GroupId): (int, int) {
    if id in m then (m[id].width, m[id].height) else (-1, -1)
  }

  /** Whether initialising group `id` succeeds: at least one axis, and the id is new. */
  predicate CanInit(m: Table, id: GroupId, fixedWidth: bool, fixedHeight: bool) {
    (fixedWidth || fixedHeight) && !HasGroup(m, id)
  }

  /** The table after initialising group `id`; a failed initialisation changes nothing. */
  function InitGroup(m: Table, id: GroupId, fixedWidth: bool, fixedHeight: bool): Table {
    if CanInit(m, id, fixedWidth, fixedHeight) then m[id := NewLinkedSize(fixedWidth, fixedHeight)] else m
  }

  /** The table after adding `w` to the existing group `id`; an existing member is not added again. */
  function AddWidget(m: Table, id: GroupId, w: WidgetId): Table
    requires HasGroup(m, id)
  {
    if w in m[id].widgets then m else m[id := m[id].(widgets := m[id].widgets + [w])]
  }

  /** The table after removing `w` from the existing group `id`. */
  function RemoveWidget(m: Table, id: GroupId, w: WidgetId): Table
    requires HasGroup(m, id)
  {
    m[id := m[id].(widgets := Erase(m[id].widgets, w))]
  }

  /** `ws` without the first occurrence of `w` (unchanged when `w` does not occur). */
  function Erase(ws: seq<WidgetId>, w: WidgetId): (r: seq<WidgetId>)
    ensures multiset(r) == multiset(ws) - multiset{w}
  {
    if ws == [] then []
    else if ws[0] == w then
      assert ws == [ws[0]] + ws[1..];
      ws[1..]
    else
      assert ws == [ws[0]] + ws[1..];
      [ws[0]] + Erase(ws[1..], w)
  }

  /** The linear search the group operations use: the first index of `w`, or |ws| when absent. */
  method Find(ws: seq<WidgetId>, w: WidgetId) returns (i: nat)
    ensures i <= |ws|
    ensures i < |ws| ==> ws[i] == w
    ensures w !in ws[..i]
  {
    i := 0;
    while i < |ws| && ws[i] != w
      invariant i <= |ws|
      invariant w !in ws[..i]
    {
      i := i + 1;
    }
  }

  // ---------------------------------------------------------------- Erase

  /** Erasing at the index that Find reports is erasing the first occurrence. */
  lemma {:induction false} EraseAt(ws: seq<WidgetId>, i: nat, w: WidgetId)
    requires i < |ws| && ws[i] == w && w !in ws[..i]
    ensures Erase(ws, w) == ws[..i] + ws[i + 1..]
  {
    if i > 0 {
      var tail := ws[1..];
      SplitAfterHead(ws, i);
      assert ws[0] != w by {
        assert ws[..i][0] == ws[0];
      }
      assert w !in tail[..i - 1];
      EraseAt(tail, i - 1, w);
    }
  }

  /** How the prefix and suffix around index i look from the tail of `ws`. */
  lemma SplitAfterHead(ws: seq<WidgetId>, i: nat)
    requires 0 < i < |ws|
    ensures ws[..i] == [ws[0]] + ws[1..][..i - 1]
    ensures ws[1..][i..] == ws[i + 1..]
    ensures forall x :: x in ws[1..][..i - 1] ==> x in ws[..i]
  {
  }

  /** Erasing a widget that does not occur leaves the list as it was. */
  lemma {:induction false} EraseAbsent(ws: seq<WidgetId>, w: WidgetId)
    requires w !in ws
    ensures Erase(ws, w) == ws
  {
    if ws != [] {
      assert ws[0] != w;
      EraseAbsent(ws[1..], w);
    }
  }

  /** Erasing a widget just appended (and not present before) restores the list. */
  lemma {:induction false} EraseAppended(ws: seq<WidgetId>, w: WidgetId)
    requires w !in ws
    ensures Erase(ws + [w], w) == ws
  {
    if ws == [] {
    } else {
      assert (ws + [w])[1..] == ws[1..] + [w];
      assert ws[0] != w;
      EraseAppended(ws[1..], w);
    }
  }

  /** In a list without duplicates, nothing of `w` is left after erasing it. */
  lemma EraseRemovesMember(ws: seq<WidgetId>, w: WidgetId)
    requires NoDuplicates(ws)
    ensures w !in Erase(ws, w)
    ensures NoDuplicates(Erase(ws, w))
    ensures forall x :: x in Erase(ws, w) ==> x in ws
  {
    var r := Erase(ws, w);
    assert multiset(ws)[w] <= 1;
    assert w !in multiset(r);
    forall x | x in r ensures x in ws {
      assert multiset(r)[x] > 0;
    }
  }

  // ---------------------------------------------------------------- Init

  /**
   * init_linked_size_group: it succeeds exactly when an axis is requested and
   * the id is new; then the group exists, is empty, and get_linked_size reports
   * 0 on each linked axis and -1 on the other. Other groups are untouched;
   * a failure changes nothing.
   */
  lemma InitGroupResult(m: Table, id: GroupId, fixedWidth: bool, fixedHeight: bool)
    ensures var m' := InitGroup(m, id, fixedWidth, fixedHeight);
      && (CanInit(m, id, fixedWidth, fixedHeight) ==>
            && HasGroup(m', id)
            && m'[id].widgets == []
            && GetLinkedSize(m', id) == (if fixedWidth then 0 else -1, if fixedHeight then 0 else -1))
      && (!CanInit(m, id, fixedWidth, fixedHeight) ==> m' == m)
      && (forall other :: other != id ==> (HasGroup(m', other) <==> HasGroup(m, other)))
      && (forall other :: other != id && HasGroup(m, other) ==> m'[other] == m[other])
  {
  }

  /** Initialising a group keeps the table valid. */
  lemma InitPreservesValid(m: Table, id: GroupId, fixedWidth: bool, fixedHeight: bool)
    requires Valid(m)
    ensures Valid(InitGroup(m, id, fixedWidth, fixedHeight))
  {
  }

  /** In a valid table, get_linked_size answers (-1, -1) exactly for ids that name no group. */
  lemma UnknownGroupSize(m: Table, id: GroupId)
    requires Valid(m)
    ensures GetLinkedSize(m, id) == (-1, -1) <==> !HasGroup(m, id)
  {
  }

  // ---------------------------------------------------------------- Add

  /**
   * add_linked_widget: afterwards `w` is a member of group `id`, listed once
   * when the group listed no widget twice before;
   * the group's sizes and every other group are unchanged.
   */
  lemma AddWidgetResult(m: Table, id: GroupId, w: WidgetId)
    requires HasGroup(m, id)
    ensures var m' := AddWidget(m, id, w);
      && m'.Keys == m.Keys
      && w in m'[id].widgets
      && (NoDuplicates(m[id].widgets) ==> multiset(m'[id].widgets)[w] == 1)
      && (forall x :: x in m'[id].widgets <==> x in m[id].widgets || x == w)
      && GetLinkedSize(m', id) == GetLinkedSize(m, id)
      && (forall other :: other in m && other != id ==> m'[other] == m[other])
  {
  }

  /** Adding a widget that belongs to no other group keeps the table valid. */
  lemma AddPreservesValid(m: Table, id: GroupId, w: WidgetId)
    requires Valid(m) && HasGroup(m, id)
    requires forall other :: other in m && other != id ==> w !in m[other].widgets
    ensures Valid(AddWidget(m, id, w))
  {
  }

  // ---------------------------------------------------------------- Remove

  /** remove_linked_widget on a widget that is not a member leaves the table unchanged. */
  lemma RemoveNonMember(m: Table, id: GroupId, w: WidgetId)
    requires HasGroup(m, id) && w !in m[id].widgets
    ensures RemoveWidget(m, id, w) == m
  {
    EraseAbsent(m[id].widgets, w);
  }

  /**
   * remove_linked_widget in a valid table: afterwards `w` is no member of
   * group `id`, every other member stays, the sizes and other groups are unchanged.
   */
  lemma RemoveWidgetResult(m: Table, id: GroupId, w: WidgetId)
    requires Valid(m) && HasGroup(m, id)
    ensures var m' := RemoveWidget(m, id, w);
      && m'.Keys == m.Keys
      && w !in m'[id].widgets
      && (forall x :: x != w ==> (x in m'[id].widgets <==> x in m[id].widgets))
      && GetLinkedSize(m', id) == GetLinkedSize(m, id)
      && (forall other :: other in m && other != id ==> m'[other] == m[other])
  {
    var ws := m[id].widgets;
    assert GroupValid(m[id]);
    EraseRemovesMember(ws, w);
    var r := Erase(ws, w);
    forall x | x != w ensures x in r <==> x in ws {
      assert multiset(r)[x] == multiset(ws)[x];
    }
  }

  /** Removing a widget keeps the table valid. */
  lemma RemovePreservesValid(m: Table, id: GroupId, w: WidgetId)
    requires Valid(m) && HasGroup(m, id)
    ensures Valid(RemoveWidget(m, id, w))
  {
    assert GroupValid(m[id]);
    EraseRemovesMember(m[id].widgets, w);
  }

  /** Adding a widget that is not yet a member and then removing it restores the table. */
  lemma AddThenRemove(m: Table, id: GroupId, w: WidgetId)
    requires HasGroup(m, id) && w !in m[id].widgets
    ensures RemoveWidget(AddWidget(m, id, w), id, w) == m
  {
    EraseAppended(m[id].widgets, w);
  }
}
