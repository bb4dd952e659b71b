/** The tree edits of the command table (src/CommandRunner/gui/commandtable/CommandTableController.java):
    moving and copying rows, grouping the selection, removing the selection, and the keyboard move.
    The table's root is a `Tree` value that each operation replaces; a TreeItem removed from its
    parent's children list is a node deleted, with its subtree, wherever it sits. */
module TableEdits {
  import opened Wrappers
  import opened Status
  import opened Trees
  import opened TableStatus

  // ---------------------------------------------------------------------------------------------
  // Editing children lists

  /** `getChildren().remove(item)` for every item with an id in `ids`: those nodes leave every
      children list, taking their subtrees with them. */
  function Detach(ts: seq<Tree>, ids: set<nat>): seq<Tree>
    decreases ts, 0
  {
    if ts == [] then []
    else (if ts[0].id in ids then [] else [Prune(ts[0], ids)]) + Detach(ts[1..], ids)
  }

  function Prune(t: Tree, ids: set<nat>): Tree
    decreases t, 1
  {
    t.(children := Detach(t.children, ids))
  }

  /** After the removal no node with one of the ids is left below the root. */
  lemma {:induction false} DetachRemoves(ts: seq<Tree>, ids: set<nat>)
    ensures forall x :: x in Ids(NodesOf(Detach(ts, ids))) ==> x !in ids
    decreases ts, 0
  {
    if ts != [] {
      var head := if ts[0].id in ids then [] else [Prune(ts[0], ids)];
      DetachRemoves(ts[1..], ids);
      NodesOfAppend(head, Detach(ts[1..], ids));
      IdsAppend(NodesOf(head), NodesOf(Detach(ts[1..], ids)));
      if ts[0].id !in ids {
        DetachRemoves(ts[0].children, ids);
        assert NodesOf(head) == [Prune(ts[0], ids)] + NodesOf(Detach(ts[0].children, ids)) by {
          assert head[1..] == [];
        }
        IdsAppend([Prune(ts[0], ids)], NodesOf(Detach(ts[0].children, ids)));
      }
    }
  }

  /** Removing one set of items and then another is removing both. */
  lemma {:induction false} DetachTwice(ts: seq<Tree>, a: set<nat>, b: set<nat>)
    ensures Detach(Detach(ts, a), b) == Detach(ts, a + b)
    decreases ts, 0
  {
    if ts != [] {
      DetachTwice(ts[1..], a, b);
      var head := if ts[0].id in a then [] else [Prune(ts[0], a)];
      DetachAppend(head, Detach(ts[1..], a), b);
      if ts[0].id !in a {
        DetachTwice(ts[0].children, a, b);
        assert Detach(head, b) == (if ts[0].id in b then [] else [Prune(Prune(ts[0], a), b)]) by {
          assert head[1..] == [];
        }
      }
    }
  }

  lemma {:induction false} DetachAppend(x: seq<Tree>, y: seq<Tree>, ids: set<nat>)
    ensures Detach(x + y, ids) == Detach(x, ids) + Detach(y, ids)
    decreases |x|
  {
    if x == [] {
      assert x + y == y;
    } else {
      assert (x + y)[1..] == x[1..] + y;
      DetachAppend(x[1..], y, ids);
    }
  }

  /** `addAll(k, rows)` on a children list: rows inserted, contiguously and in order, at `k`. */
  function Splice(cs: seq<Tree>, k: int, rows: seq<Tree>): seq<Tree>
  {
    if 0 <= k <= |cs| then cs[..k] + rows + cs[k..] else cs + rows
  }

  /** The insertion into the children of the node(s) with id `pid`. */
  function InsertInto(t: Tree, pid: nat, k: int, rows: seq<Tree>): Tree
    decreases t, 1
  {
    if t.id == pid then t.(children := Splice(t.children, k, rows))
    else t.(children := InsertAt(t.children, pid, k, rows))
  }

  function InsertAt(ts: seq<Tree>, pid: nat, k: int, rows: seq<Tree>): (r: seq<Tree>)
    ensures |r| == |ts|
    decreases ts, 0
  {
    if ts == [] then [] else [InsertInto(ts[0], pid, k, rows)] + InsertAt(ts[1..], pid, k, rows)
  }

  lemma {:induction false} InsertAtAbsent(ts: seq<Tree>, pid: nat, k: int, rows: seq<Tree>)
    requires !HasId(ts, pid)
    ensures InsertAt(ts, pid, k, rows) == ts
    decreases ts, 0
  {
    if ts != [] {
      NodesOfFirst(ts);
      IdsAppend([ts[0]] + NodesOf(ts[0].children), NodesOf(ts[1..]));
      IdsAppend([ts[0]], NodesOf(ts[0].children));
      InsertAtAbsent(ts[0].children, pid, k, rows);
      InsertAtAbsent(ts[1..], pid, k, rows);
    }
  }

  /** After the insertion, the parent found by identity has exactly its old children with the rows
      spliced in at `k`. */
  lemma {:induction false} InsertFindsSplicedParent(ts: seq<Tree>, pid: nat, k: int, rows: seq<Tree>)
    requires Find(ts, pid).Some?
    ensures Find(InsertAt(ts, pid, k, rows), pid)
            == Some(Find(ts, pid).value.(children := Splice(Find(ts, pid).value.children, k, rows)))
    decreases ts
  {
    var r := InsertAt(ts, pid, k, rows);
    assert r[0] == InsertInto(ts[0], pid, k, rows) && r[1..] == InsertAt(ts[1..], pid, k, rows);
    if ts[0].id != pid {
      if Find(ts[0].children, pid).Some? {
        InsertFindsSplicedParent(ts[0].children, pid, k, rows);
      } else {
        InsertAtAbsent(ts[0].children, pid, k, rows);
        InsertFindsSplicedParent(ts[1..], pid, k, rows);
      }
    }
  }

  /** The first node, in pre-order, that has a child with this id: `item.getParent()`. */
  function ParentOf(ts: seq<Tree>, id: nat): (r: Option<Tree>)
    ensures r.Some? ==> id in Ids(r.value.children)
    decreases ts
  {
    if ts == [] then None
    else if id in Ids(ts[0].children) then Some(ts[0])
    else
      var inside := ParentOf(ts[0].children, id);
      if inside.Some? then inside else ParentOf(ts[1..], id)
  }

  /** `index` clamped into `[0, size]` by the source's `while (index > size) index--;` and
      `if (index < 0) index = 0;`. */
  function Clamp(index: int, size: nat): (r: nat)
    ensures r <= size
    ensures 0 <= index <= size ==> r == index
    ensures index > size ==> r == size
    ensures index < 0 ==> r == 0
  {
    if index > size then size else if index < 0 then 0 else index
  }

  /** The number of children of the node with id `pid`, 0 without such a node. */
  function ChildCount(root: Tree, pid: nat): nat
  {
    match Find([root], pid)
    case Some(p) => |p.children|
    case None => 0
  }

  // ---------------------------------------------------------------------------------------------
  // `moveRowsToIndex` and `moveRowsToItem`

  /** The dragged TreeItems, looked up by identity. */
  function Dragged(root: Tree, dragRows: seq<nat>): (r: seq<Tree>)
    requires forall d :: d in dragRows ==> HasId([root], d)
    ensures |r| == |dragRows| && forall i :: 0 <= i < |dragRows| ==> r[i] == Find([root], dragRows[i]).value
  {
    seq(|dragRows|, i requires 0 <= i < |dragRows| => Find([root], dragRows[i]).value)
  }

  /** The subtrees that are moved or copied: each dragged item as it is in the tree, with (for a
      move) the dragged items below it already taken out, or (for a copy) a deep copy. */
  function MovedRows(root: Tree, dragRows: seq<nat>, copy: bool, next: nat): (r: (seq<Tree>, nat))
    requires forall d :: d in dragRows ==> HasId([root], d)
    ensures |r.0| == |dragRows|
  {
    var found := Dragged(root, dragRows);
    if copy then (CopyForest(found, next, true), next + SizeOf(found))
    else (seq(|dragRows|, i requires 0 <= i < |dragRows| => Prune(found[i], set d | d in dragRows)), next)
  }

  /** `moveRowsToIndex(index, copy, dragRows, parent)` on values; the second component is the next
      unused node id. */
  function MoveToIndexSpec(root: Tree, index: int, copy: bool, dragRows: seq<nat>, pid: nat, next: nat)
    : (Tree, nat)
    requires forall d :: d in dragRows ==> HasId([root], d)
  {
    var (rows, next') := MovedRows(root, dragRows, copy, next);
    var base := if copy then root else Prune(root, set d | d in dragRows);
    (InsertInto(base, pid, Clamp(index, ChildCount(base, pid)), rows), next')
  }

  /** Where `moveRowsToItem` inserts: the parent and the index before clamping, or nothing when the
      target has no parent. */
  function DropPlace(root: Tree, target: Option<nat>, moveIntoIfGroup: bool): Option<(nat, int)>
    requires target.Some? ==> HasId([root], target.value)
  {
    match target
    case None => Some((root.id, |root.children|))
    case Some(t) =>
      var item := Find([root], t).value;
      if moveIntoIfGroup && item.row.GroupRow? then Some((t, IndexOf(item.children, t)))
      else
        match ParentOf([root], t)
        case None => None
        case Some(p) => Some((p.id, IndexOf(p.children, t)))
  }

  function MoveToItemSpec(root: Tree, target: Option<nat>, moveIntoIfGroup: bool, copy: bool,
                          dragRows: seq<nat>, next: nat): (Tree, nat)
    requires target.Some? ==> HasId([root], target.value)
    requires forall d :: d in dragRows ==> HasId([root], d)
  {
    match DropPlace(root, target, moveIntoIfGroup)
    case None => (root, next)
    case Some((pid, index)) => MoveToIndexSpec(root, index, copy, dragRows, pid, next)
  }

  /** The rows land contiguously, in their given order, at the clamped index among the parent's
      remaining children. */
  lemma MoveInsertsContiguously(root: Tree, index: int, copy: bool, dragRows: seq<nat>, pid: nat, next: nat)
    requires forall d :: d in dragRows ==> HasId([root], d)
    requires var base := if copy then root else Prune(root, set d | d in dragRows);
             Find([base], pid).Some?
    ensures var base := if copy then root else Prune(root, set d | d in dragRows);
            var p := Find([base], pid).value;
            var rows := MovedRows(root, dragRows, copy, next).0;
            var k := Clamp(index, |p.children|);
            var r := MoveToIndexSpec(root, index, copy, dragRows, pid, next).0;
            Find([r], pid) == Some(p.(children := p.children[..k] + rows + p.children[k..]))
  {
    var base := if copy then root else Prune(root, set d | d in dragRows);
    var rows := MovedRows(root, dragRows, copy, next).0;
    var k := Clamp(index, ChildCount(base, pid));
    InsertFindsSplicedParent([base], pid, k, rows);
    assert InsertAt([base], pid, k, rows) == [InsertInto(base, pid, k, rows)];
  }

  /** A move takes every dragged item out of its old place: outside the inserted rows no dragged
      item is left. */
  lemma MoveDetaches(root: Tree, dragRows: seq<nat>)
    requires root.id !in dragRows
    ensures forall x :: x in Ids(NodesOf([Prune(root, set d | d in dragRows)])) ==> x !in dragRows
  {
    var ids := set d | d in dragRows;
    DetachRemoves([root], ids);
    assert Detach([root], ids) == [Prune(root, ids)] + Detach([], ids);
  }

  /** Dropping onto a group with `moveIntoIfGroup` inserts at the group's front: the group is not
      its own child, so its index among its children is -1, clamped to 0. */
  lemma DropOntoGroupInsertsAtFront(root: Tree, g: nat)
    requires HasId([root], g) && Find([root], g).value.row.GroupRow?
    requires g !in Ids(Find([root], g).value.children)
    ensures DropPlace(root, Some(g), true) == Some((g, -1))
    ensures forall size: nat :: Clamp(-1, size) == 0
  {
  }

  // ---------------------------------------------------------------------------------------------
  // `addSelectedItemsToGroup`

  /** The index the new group goes to: `while (i >= size) i--; if (i < 0) i = 0;`. */
  function GroupIndex(index: int, size: nat): (r: nat)
    ensures size == 0 ==> r == 0
    ensures size > 0 ==> r < size
    ensures 0 <= index < size ==> r == index
    ensures index >= size > 0 ==> r == size - 1
  {
    if index >= size then (if size == 0 then 0 else size - 1) else if index < 0 then 0 else index
  }

  function GroupSpec(root: Tree, name: string, selected: seq<nat>, next: nat): (Tree, nat)
    requires forall s :: s in selected ==> HasId([root], s)
    requires selected != [] ==> ParentOf([root], selected[0]).Some?
  {
    if selected == [] then (root, next)
    else
      var parent := ParentOf([root], selected[0]).value;
      var index := IndexOf(parent.children, selected[0]);
      var members := MovedRows(root, selected, false, next).0;
      var group := Node(next, GroupRow(name, "", "", ""), false, members);
      var base := Prune(root, set s | s in selected);
      (InsertInto(base, parent.id, GroupIndex(index, ChildCount(base, parent.id)), [group]), next + 1)
  }

  /** An empty selection changes nothing; otherwise a new group holding the selected items, in
      selection order, stands in the first item's parent at that item's former index, clamped to
      the last position among the children that remain (or 0 when none remain). */
  lemma GroupingBehaviour(root: Tree, name: string, selected: seq<nat>, next: nat)
    requires forall s :: s in selected ==> HasId([root], s)
    requires selected != [] ==> ParentOf([root], selected[0]).Some?
    ensures selected == [] ==> GroupSpec(root, name, selected, next) == (root, next)
    ensures selected != [] ==>
              var parent := ParentOf([root], selected[0]).value;
              var base := Prune(root, set s | s in selected);
              Find([base], parent.id).Some? ==>
              var remaining := Find([base], parent.id).value.children;
              var k := GroupIndex(IndexOf(parent.children, selected[0]), |remaining|);
              var (r, next') := GroupSpec(root, name, selected, next);
              var group := Node(next, GroupRow(name, "", "", ""), false,
                                MovedRows(root, selected, false, next).0);
              next' == next + 1 &&
              Find([r], parent.id) == Some(Find([base], parent.id).value.(
                children := remaining[..k] + [group] + remaining[k..]))
  {
    if selected != [] {
      var parent := ParentOf([root], selected[0]).value;
      var base := Prune(root, set s | s in selected);
      if Find([base], parent.id).Some? {
        var remaining := Find([base], parent.id).value.children;
        var k := GroupIndex(IndexOf(parent.children, selected[0]), |remaining|);
        var group := Node(next, GroupRow(name, "", "", ""), false, MovedRows(root, selected, false, next).0);
        InsertFindsSplicedParent([base], parent.id, k, [group]);
        assert InsertAt([base], parent.id, k, [group]) == [InsertInto(base, parent.id, k, [group])];
      }
    }
  }

  // ---------------------------------------------------------------------------------------------
  // `removeCommandTableRow`

  function ParentId(root: Tree, id: nat): Option<nat>
  {
    match ParentOf([root], id)
    case Some(p) => Some(p.id)
    case None => None
  }

  function Without(xs: seq<nat>, x: nat): (r: seq<nat>)
    ensures forall y :: y in r <==> y in xs && y != x
  {
    if xs == [] then [] else (if xs[0] == x then [] else [xs[0]]) + Without(xs[1..], x)
  }

  /** The lazy filter over the selection: each selected item, in order, is dropped from the working
      list when its parent is in the working list at that moment. */
  function FilterNested(root: Tree, selected: seq<nat>, i: nat, list: seq<nat>): seq<nat>
    requires i <= |selected|
    decreases |selected| - i
  {
    if i == |selected| then list
    else
      var item := selected[i];
      var p := ParentId(root, item);
      FilterNested(root, selected, i + 1, if p.Some? && p.value in list then Without(list, item) else list)
  }

  /** The parent id of each selected item, in selection order. */
  function ParentsOf(root: Tree, selected: seq<nat>): (r: seq<Option<nat>>)
    ensures |r| == |selected|
    ensures forall k :: 0 <= k < |selected| ==> r[k] == ParentId(root, selected[k])
  {
    seq(|selected|, k requires 0 <= k < |selected| => ParentId(root, selected[k]))
  }

  /** The same filter, reading each item's parent from `parents`. */
  function FilterNestedBy(parents: seq<Option<nat>>, selected: seq<nat>, i: nat, list: seq<nat>): seq<nat>
    requires i <= |selected| == |parents|
    decreases |selected| - i
  {
    if i == |selected| then list
    else
      var p := parents[i];
      FilterNestedBy(parents, selected, i + 1, if p.Some? && p.value in list then Without(list, selected[i]) else list)
  }

  lemma {:induction false} FilterNestedIsBy(root: Tree, selected: seq<nat>, parents: seq<Option<nat>>, i: nat, list: seq<nat>)
    requires i <= |selected| && parents == ParentsOf(root, selected)
    ensures FilterNested(root, selected, i, list) == FilterNestedBy(parents, selected, i, list)
    decreases |selected| - i
  {
    if i < |selected| {
      var p := ParentId(root, selected[i]);
      var list' := if p.Some? && p.value in list then Without(list, selected[i]) else list;
      FilterNestedIsBy(root, selected, parents, i + 1, list');
    }
  }

  /** `x`, the selected item at `j`, is kept without its parent: it has none, or its parent is
      not in `l`. */
  ghost predicate ParentNotIn(parents: seq<Option<nat>>, j: nat, l: seq<nat>)
    requires j < |parents|
  {
    parents[j].None? || parents[j].value !in l
  }

  /** The facts the filter keeps from step `i` on: the working list holds only selected items,
      holds every item not yet looked at, and no item already looked at is kept with its parent. */
  ghost predicate FilterInvariant(parents: seq<Option<nat>>, selected: seq<nat>, i: nat, list: seq<nat>)
  {
    i <= |selected| == |parents| &&
    (forall x :: x in list ==> x in selected) &&
    (forall j :: i <= j < |selected| ==> selected[j] in list) &&
    (forall j :: 0 <= j < i && selected[j] in list ==> ParentNotIn(parents, j, list))
  }

  lemma FilterInvariantStep(parents: seq<Option<nat>>, selected: seq<nat>, i: nat, list: seq<nat>, list': seq<nat>)
    requires Distinct(selected) && FilterInvariant(parents, selected, i, list) && i < |selected|
    requires var p := parents[i];
             list' == if p.Some? && p.value in list then Without(list, selected[i]) else list
    ensures FilterInvariant(parents, selected, i + 1, list')
  {
    var item := selected[i];
    assert forall x :: x in list' ==> x in list;
    forall j | i + 1 <= j < |selected| ensures selected[j] in list' {
      assert selected[j] != item;
    }
    forall j | 0 <= j < i + 1 && selected[j] in list' ensures ParentNotIn(parents, j, list') {
      if j < i {
        assert ParentNotIn(parents, j, list);
      }
    }
  }

  /** What the filter leaves: only selected items, none kept together with its parent. */
  ghost predicate FilterKept(parents: seq<Option<nat>>, selected: seq<nat>, r: seq<nat>)
    requires |parents| == |selected|
  {
    (forall x :: x in r ==> x in selected) &&
    forall j :: 0 <= j < |selected| && selected[j] in r ==> ParentNotIn(parents, j, r)
  }

  lemma {:induction false} FilterKeeps(parents: seq<Option<nat>>, selected: seq<nat>, i: nat, list: seq<nat>)
    requires Distinct(selected) && FilterInvariant(parents, selected, i, list)
    ensures FilterKept(parents, selected, FilterNestedBy(parents, selected, i, list))
    decreases |selected| - i
  {
    if i < |selected| {
      var p := parents[i];
      var list' := if p.Some? && p.value in list then Without(list, selected[i]) else list;
      assert FilterNestedBy(parents, selected, i, list) == FilterNestedBy(parents, selected, i + 1, list');
      FilterInvariantStep(parents, selected, i, list, list');
      FilterKeeps(parents, selected, i + 1, list');
      assert FilterKept(parents, selected, FilterNestedBy(parents, selected, i + 1, list'));
    } else {
      assert FilterNestedBy(parents, selected, i, list) == list;
      forall j | 0 <= j < |selected| && selected[j] in list ensures ParentNotIn(parents, j, list) {
        assert j < i;
      }
      assert FilterKept(parents, selected, list);
    }
  }

  /** What the filter keeps: only selected items, and no kept item has its parent kept too, so no
      row is removed twice through its parent. */
  lemma FilterNestedKeepsNoChildOfKept(root: Tree, selected: seq<nat>)
    requires Distinct(selected)
    ensures var r := FilterNested(root, selected, 0, selected);
            (forall x :: x in r ==> x in selected) &&
            forall x :: x in r ==> ParentId(root, x).None? || ParentId(root, x).value !in r
  {
    var parents := ParentsOf(root, selected);
    FilterNestedIsBy(root, selected, parents, 0, selected);
    FilterKeeps(parents, selected, 0, selected);
    var r := FilterNested(root, selected, 0, selected);
    forall x | x in r ensures ParentId(root, x).None? || ParentId(root, x).value !in r {
      var j :| 0 <= j < |selected| && selected[j] == x;
      assert ParentNotIn(parents, j, r);
    }
  }

  /** The filter loop of `removeCommandTableRow`. */
  method FilterNestedSelection(root: Tree, selected: seq<nat>) returns (rows: seq<nat>)
    ensures rows == FilterNested(root, selected, 0, selected)
  {
    rows := selected;
    var i := 0;
    while i < |selected|
      invariant 0 <= i <= |selected|
      invariant FilterNested(root, selected, i, rows) == FilterNested(root, selected, 0, selected)
    {
      var item := selected[i];
      var parent := ParentId(root, item);
      if parent.Some? && parent.value in rows {
        rows := Without(rows, item);
      }
      i := i + 1;
    }
  }

  /** The removal loop: a non-empty group needs a confirmation when `confirmNonemptyDelete` is set;
      the answers come in order and a missing one counts as Cancel, which ends the loop with the
      removals made so far. `original` is the tree before the loop, whose rows the dialogs look at. */
  function RemoveSpec(original: Tree, root: Tree, items: seq<nat>, confirmNonemptyDelete: bool,
                      answers: seq<bool>): Tree
    decreases |items|
  {
    if items == [] then root
    else
      var node := Find([original], items[0]);
      var asks := node.Some? && node.value.row.GroupRow? && confirmNonemptyDelete && node.value.children != [];
      if asks && (answers == [] || !answers[0]) then root
      else RemoveSpec(original, Prune(root, {items[0]}), items[1..], confirmNonemptyDelete,
                      if asks then answers[1..] else answers)
  }

  /** With every confirmation given, the rows left after filtering are removed together with their
      subtrees, and nothing else changes. */
  lemma {:induction false} RemoveAllConfirmed(original: Tree, root: Tree, items: seq<nat>,
                                              confirmNonemptyDelete: bool, answers: seq<bool>)
    requires |answers| >= |items| && forall i :: 0 <= i < |answers| ==> answers[i]
    requires root.id !in items
    ensures RemoveSpec(original, root, items, confirmNonemptyDelete, answers)
            == Prune(root, set x | x in items)
    decreases |items|
  {
    var all := set x | x in items;
    if items == [] {
      assert all == {};
      PruneNothing(root);
      assert RemoveSpec(original, root, items, confirmNonemptyDelete, answers) == root;
      assert Prune(root, all) == root;
    } else {
      var node := Find([original], items[0]);
      var asks := node.Some? && node.value.row.GroupRow? && confirmNonemptyDelete && node.value.children != [];
      var rest := if asks then answers[1..] else answers;
      var later := set x | x in items[1..];
      RemoveAllConfirmed(original, Prune(root, {items[0]}), items[1..], confirmNonemptyDelete, rest);
      assert answers[0];
      PruneTwice(root, {items[0]}, later);
      assert {items[0]} + later == all by {
        forall x | x in items ensures x == items[0] || x in items[1..] {
          var j :| 0 <= j < |items| && items[j] == x;
          if j > 0 { assert items[1..][j - 1] == x; }
        }
      }
    }
  }

  lemma PruneTwice(t: Tree, a: set<nat>, b: set<nat>)
    ensures Prune(Prune(t, a), b) == Prune(t, a + b)
  {
    DetachTwice(t.children, a, b);
  }

  lemma {:induction false} PruneNothing(t: Tree)
    ensures Prune(t, {}) == t
    decreases t, 1
  {
    DetachNothing(t.children);
  }

  lemma {:induction false} DetachNothing(ts: seq<Tree>)
    ensures Detach(ts, {}) == ts
    decreases ts, 0
  {
    if ts != [] {
      PruneNothing(ts[0]);
      DetachNothing(ts[1..]);
    }
  }

  /** `keyboardMoveSelectedRows`: the smallest non-negative selected index. */
  method MinNonNegative(indices: seq<int>) returns (r: Option<nat>)
    ensures r.None? <==> forall i :: 0 <= i < |indices| ==> indices[i] < 0
    ensures r.Some? ==> r.value in indices && forall i :: 0 <= i < |indices| && indices[i] >= 0 ==> r.value <= indices[i]
  {
    r := None;
    var i := 0;
    while i < |indices|
      invariant 0 <= i <= |indices|
      invariant r.None? <==> forall j :: 0 <= j < i ==> indices[j] < 0
      invariant r.Some? ==> r.value in indices[..i]
      invariant r.Some? ==> forall j :: 0 <= j < i && indices[j] >= 0 ==> r.value <= indices[j]
    {
      if indices[i] >= 0 && (r.None? || indices[i] < r.value) {
        r := Some(indices[i]);
      }
      i := i + 1;
    }
    assert indices[..i] == indices;
  }

  /** The smallest non-negative entry, if any. */
  function MinIndex(indices: seq<int>): Option<nat>
  {
    if indices == [] then None
    else
      var rest := MinIndex(indices[1..]);
      if indices[0] < 0 then rest
      else if rest.None? || indices[0] <= rest.value then Some(indices[0] as nat) else rest
  }

  lemma {:induction false} MinIndexIsMinimum(indices: seq<int>, r: Option<nat>)
    requires r.None? <==> forall i :: 0 <= i < |indices| ==> indices[i] < 0
    requires r.Some? ==> r.value in indices && forall i :: 0 <= i < |indices| && indices[i] >= 0 ==> r.value <= indices[i]
    ensures r == MinIndex(indices)
    decreases |indices|
  {
    if indices != [] {
      var rest := indices[1..];
      var rr: Option<nat> := MinIndex(rest);
      MinIndexSpec(rest);
      if r.Some? && r.value != indices[0] {
        assert r.value in rest;
      }
    }
  }

  lemma {:induction false} MinIndexSpec(indices: seq<int>)
    ensures var r := MinIndex(indices);
            (r.None? <==> forall i :: 0 <= i < |indices| ==> indices[i] < 0) &&
            (r.Some? ==> r.value in indices && forall i :: 0 <= i < |indices| && indices[i] >= 0 ==> r.value <= indices[i])
    decreases |indices|
  {
    if indices != [] {
      MinIndexSpec(indices[1..]);
      var r := MinIndex(indices);
      if r.Some? {
        forall i | 0 <= i < |indices| && indices[i] >= 0 ensures r.value <= indices[i] {
          if i > 0 {
            assert indices[i] == indices[1..][i - 1];
          }
        }
      }
    }
  }
}
