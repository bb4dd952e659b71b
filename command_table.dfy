/** The table controller's state (src/CommandRunner/gui/commandtable/CommandTableController.java):
    the root of its table and a supply of identities for the TreeItems the edits create. A node's
    id stands for a TreeItem object, so the table keeps its ids distinct and below the supply, and
    every edit keeps it so. The argument counts, for each id, the nodes of a forest that carry it. */
module CommandTables {
  import opened Wrappers
  import opened Trees
  import opened TableStatus
  import opened TableEdits

  // ---------------------------------------------------------------------------------------------
  // The identity invariant

  /** Every node is a distinct TreeItem, and `next` is above every id in use. */
  predicate Identities(root: Tree, next: nat)
  {
    UniqueIds([root]) && forall x :: x in Ids(NodesOf([root])) ==> x < next
  }

  /** How many nodes of the forest carry the id `x`. */
  function Count(ts: seq<Tree>, x: nat): nat
    decreases ts, 0
  {
    if ts == [] then 0 else TreeCount(ts[0], x) + Count(ts[1..], x)
  }

  function TreeCount(t: Tree, x: nat): nat
    decreases t, 1
  {
    (if t.id == x then 1 else 0) + Count(t.children, x)
  }

  /** Each id occurs at most once, and only below `next`. */
  ghost predicate CountsBelow(ts: seq<Tree>, next: nat)
  {
    forall x: nat :: Count(ts, x) <= 1 && (Count(ts, x) > 0 ==> x < next)
  }

  /** No two top nodes share an id. */
  ghost predicate DistinctTops(ts: seq<Tree>)
  {
    forall a, b :: 0 <= a < b < |ts| ==> ts[a].id != ts[b].id
  }

  lemma {:induction false} DistinctIsSingle(xs: seq<nat>)
    ensures Distinct(xs) <==> forall x :: multiset(xs)[x] <= 1
    decreases |xs|
  {
    if xs != [] {
      var r := xs[1..];
      DistinctIsSingle(r);
      assert xs == [xs[0]] + r;
      assert multiset(xs) == multiset{xs[0]} + multiset(r);
      if Distinct(xs) {
        assert xs[0] !in r by {
          forall j | 0 <= j < |r| ensures r[j] != xs[0] {
            assert r[j] == xs[j + 1];
          }
        }
        assert Distinct(r) by {
          forall i, j | 0 <= i < j < |r| ensures r[i] != r[j] {
            assert r[i] == xs[i + 1] && r[j] == xs[j + 1];
          }
        }
      }
      if forall x :: multiset(xs)[x] <= 1 {
        assert multiset(r)[xs[0]] == 0 by {
          assert multiset(xs)[xs[0]] == 1 + multiset(r)[xs[0]];
        }
        assert forall x :: multiset(r)[x] <= 1 by {
          forall x ensures multiset(r)[x] <= 1 {
            assert multiset(xs)[x] >= multiset(r)[x];
          }
        }
        forall i, j | 0 <= i < j < |xs| ensures xs[i] != xs[j] {
          assert xs[j] == r[j - 1];
          if i > 0 {
            assert xs[i] == r[i - 1];
          }
        }
      }
    }
  }

  /** The count is the multiplicity in the pre-order id list. */
  lemma {:induction false} CountIsIds(ts: seq<Tree>, x: nat)
    ensures Count(ts, x) == multiset(Ids(NodesOf(ts)))[x]
    decreases ts, 0
  {
    if ts != [] {
      CountIsIds(ts[0].children, x);
      CountIsIds(ts[1..], x);
      NodesOfFirst(ts);
      IdsAppend([ts[0]] + NodesOf(ts[0].children), NodesOf(ts[1..]));
      IdsAppend([ts[0]], NodesOf(ts[0].children));
      assert Ids([ts[0]]) == [ts[0].id];
    }
  }

  lemma IdentitiesByCount(root: Tree, next: nat)
    ensures Identities(root, next) <==> CountsBelow([root], next)
  {
    var ids: seq<nat> := Ids(NodesOf([root]));
    var m: multiset<nat> := multiset(ids);
    DistinctIsSingle(ids);
    forall x: nat ensures Count([root], x) == m[x] {
      CountIsIds([root], x);
    }
    assert forall x :: x in ids <==> m[x] > 0;
  }

  lemma {:induction false} CountAppend(a: seq<Tree>, b: seq<Tree>, x: nat)
    ensures Count(a + b, x) == Count(a, x) + Count(b, x)
    decreases |a|
  {
    if a == [] {
      assert a + b == b;
    } else {
      assert (a + b)[1..] == a[1..] + b;
      CountAppend(a[1..], b, x);
    }
  }

  lemma CountSingle(t: Tree, x: nat)
    ensures Count([t], x) == TreeCount(t, x)
  {
    assert [t][1..] == [];
  }

  /** A top node of the forest is counted. */
  lemma {:induction false} TopCounted(ts: seq<Tree>, k: nat)
    requires k < |ts|
    ensures Count(ts, ts[k].id) >= 1
    decreases k
  {
    if k > 0 {
      assert ts[1..][k - 1] == ts[k];
      TopCounted(ts[1..], k - 1);
    }
  }

  /** A forest without a doubled id has distinct top ids. */
  lemma {:induction false} TopIdsDistinct(ts: seq<Tree>)
    requires forall x: nat :: Count(ts, x) <= 1
    ensures DistinctTops(ts)
    decreases |ts|
  {
    if ts != [] {
      var rest := ts[1..];
      assert forall x: nat :: Count(rest, x) <= Count(ts, x);
      TopIdsDistinct(rest);
      forall k | 0 <= k < |rest| ensures rest[k].id != ts[0].id {
        TopCounted(rest, k);
        assert TreeCount(ts[0], ts[0].id) >= 1;
      }
      forall a, b | 0 <= a < b < |ts| ensures ts[a].id != ts[b].id {
        assert ts[b] == rest[b - 1];
        if a > 0 {
          assert ts[a] == rest[a - 1];
        }
      }
    }
  }

  // ---------------------------------------------------------------------------------------------
  // What the edits do to the ids

  /** The subtrees a move takes along: every node with an id in `ids`, in pre-order, with the
      nodes of `ids` below it taken out. */
  function Extract(ts: seq<Tree>, ids: set<nat>): seq<Tree>
    decreases ts, 0
  {
    if ts == [] then [] else ExtractFrom(ts[0], ids) + Extract(ts[1..], ids)
  }

  function ExtractFrom(t: Tree, ids: set<nat>): seq<Tree>
    decreases t, 1
  {
    (if t.id in ids then [Prune(t, ids)] else []) + Extract(t.children, ids)
  }

  /** Taking the nodes of `ids` out splits the forest's nodes into those left in place and those
      taken along, with nothing lost or added. */
  lemma {:induction false} DetachSplits(ts: seq<Tree>, ids: set<nat>, x: nat)
    ensures Count(Detach(ts, ids), x) + Count(Extract(ts, ids), x) == Count(ts, x)
    decreases ts, 0
  {
    if ts != [] {
      var t := ts[0];
      var p := Prune(t, ids);
      DetachSplits(t.children, ids, x);
      DetachSplits(ts[1..], ids, x);
      var head := if t.id in ids then [] else [p];
      var taken := if t.id in ids then [p] else [];
      assert Detach(ts, ids) == head + Detach(ts[1..], ids);
      assert Extract(ts, ids) == ExtractFrom(t, ids) + Extract(ts[1..], ids);
      assert ExtractFrom(t, ids) == taken + Extract(t.children, ids);
      CountAppend(head, Detach(ts[1..], ids), x);
      CountAppend(ExtractFrom(t, ids), Extract(ts[1..], ids), x);
      CountAppend(taken, Extract(t.children, ids), x);
      CountSingle(p, x);
    }
  }

  /** Each dragged item, with the dragged items below it taken out, is one of the extracted
      subtrees. */
  lemma {:induction false} ExtractHasDragged(ts: seq<Tree>, ids: set<nat>, d: nat)
    requires d in ids && HasId(ts, d)
    ensures Prune(Find(ts, d).value, ids) in Extract(ts, ids)
    decreases ts
  {
    var t := ts[0];
    assert Extract(ts, ids) == ExtractFrom(t, ids) + Extract(ts[1..], ids);
    if t.id != d {
      if Find(t.children, d).Some? {
        ExtractHasDragged(t.children, ids, d);
        assert ExtractFrom(t, ids) == (if t.id in ids then [Prune(t, ids)] else []) + Extract(t.children, ids);
      } else {
        assert Find(ts, d).Some?;
        assert Find(ts, d) == Find(ts[1..], d);
        ExtractHasDragged(ts[1..], ids, d);
      }
    } else {
      assert ExtractFrom(t, ids) == [Prune(t, ids)] + Extract(t.children, ids);
    }
  }

  /** Trees with distinct top ids, all drawn from `es` (whose top ids are distinct too), hold no
      id more often than `es` does. */
  lemma {:induction false} CountOfMembers(xs: seq<Tree>, es: seq<Tree>, x: nat)
    requires DistinctTops(xs) && DistinctTops(es)
    requires forall i :: 0 <= i < |xs| ==> xs[i] in es
    ensures Count(xs, x) <= Count(es, x)
    decreases |xs|
  {
    if xs != [] {
      var j :| 0 <= j < |es| && es[j] == xs[0];
      var others := es[..j] + es[j + 1..];
      assert es == (es[..j] + [es[j]]) + es[j + 1..];
      CountAppend(es[..j] + [es[j]], es[j + 1..], x);
      CountAppend(es[..j], [es[j]], x);
      CountAppend(es[..j], es[j + 1..], x);
      DistinctWithout(es, j);
      var rest := xs[1..];
      forall i | 0 <= i < |rest| ensures rest[i] in others {
        assert rest[i] == xs[i + 1];
        MemberWithout(es, j, rest[i]);
      }
      assert DistinctTops(rest) by {
        forall a, b | 0 <= a < b < |rest| ensures rest[a].id != rest[b].id {
          assert rest[a] == xs[a + 1] && rest[b] == xs[b + 1];
        }
      }
      CountOfMembers(rest, others, x);
      CountSingle(xs[0], x);
      CountSingle(es[j], x);
    }
  }

  lemma DistinctWithout(es: seq<Tree>, j: nat)
    requires j < |es| && DistinctTops(es)
    ensures DistinctTops(es[..j] + es[j + 1..])
  {
    var others := es[..j] + es[j + 1..];
    forall a, b | 0 <= a < b < |others| ensures others[a].id != others[b].id {
      var a' := if a < j then a else a + 1;
      var b' := if b < j then b else b + 1;
      assert others[a] == es[a'] && others[b] == es[b'];
    }
  }

  lemma MemberWithout(es: seq<Tree>, j: nat, y: Tree)
    requires j < |es| && y in es && y.id != es[j].id
    ensures y in es[..j] + es[j + 1..]
  {
    var k :| 0 <= k < |es| && es[k] == y;
    if k < j {
      assert (es[..j] + es[j + 1..])[k] == es[k];
    } else {
      assert (es[..j] + es[j + 1..])[k - 1] == es[k];
    }
  }

  /** A move leaves the tree and takes the dragged rows along with no id doubled. */
  lemma MoveSplits(root: Tree, dragRows: seq<nat>, next: nat)
    requires forall d :: d in dragRows ==> HasId([root], d)
    requires Identities(root, next) && Distinct(dragRows) && root.id !in dragRows
    ensures CountsBelow([Prune(root, set d | d in dragRows)] + MovedRows(root, dragRows, false, next).0, next)
  {
    var ids := set d | d in dragRows;
    var base := Prune(root, ids);
    var rows := MovedRows(root, dragRows, false, next).0;
    var es := Extract([root], ids);
    IdentitiesByCount(root, next);
    assert Detach([root], ids) == [base] + Detach([], ids);
    forall x: nat ensures Count([base], x) + Count(es, x) == Count([root], x) {
      DetachSplits([root], ids, x);
    }
    TopIdsDistinct(es);
    forall i | 0 <= i < |rows| ensures rows[i] in es && rows[i].id == dragRows[i] {
      ExtractHasDragged([root], ids, dragRows[i]);
    }
    forall x: nat ensures Count([base] + rows, x) <= Count([root], x) {
      CountOfMembers(rows, es, x);
      CountAppend([base], rows, x);
    }
  }

  lemma SpliceCount(cs: seq<Tree>, k: int, rows: seq<Tree>, x: nat)
    ensures Count(Splice(cs, k, rows), x) == Count(cs, x) + Count(rows, x)
  {
    if 0 <= k <= |cs| {
      CountAppend(cs[..k] + rows, cs[k..], x);
      CountAppend(cs[..k], rows, x);
      CountAppend(cs[..k], cs[k..], x);
      assert cs[..k] + cs[k..] == cs;
    } else {
      CountAppend(cs, rows, x);
    }
  }

  /** Inserting under a parent whose id occurs at most once adds the rows' nodes once when the
      parent is there, and nothing otherwise. */
  lemma {:induction false} InsertCount(ts: seq<Tree>, pid: nat, k: int, rows: seq<Tree>, x: nat)
    requires Count(ts, pid) <= 1
    ensures Count(InsertAt(ts, pid, k, rows), x) == Count(ts, x) + (if Count(ts, pid) > 0 then Count(rows, x) else 0)
    decreases ts, 0
  {
    if ts != [] {
      var t := ts[0];
      var r := InsertAt(ts, pid, k, rows);
      assert r[0] == InsertInto(t, pid, k, rows) && r[1..] == InsertAt(ts[1..], pid, k, rows);
      InsertCount(ts[1..], pid, k, rows, x);
      if t.id == pid {
        SpliceCount(t.children, k, rows, x);
      } else {
        InsertCount(t.children, pid, k, rows, x);
      }
    }
  }

  /** Rows that share no id with `base`, inserted anywhere into it, keep the invariant. */
  lemma InsertKeepsIdentities(base: Tree, pid: nat, k: int, rows: seq<Tree>, next: nat)
    requires CountsBelow([base] + rows, next)
    ensures Identities(InsertInto(base, pid, k, rows), next)
  {
    var r := InsertInto(base, pid, k, rows);
    assert InsertAt([base], pid, k, rows) == [r];
    CountAppend([base], rows, pid);
    forall x: nat ensures Count([r], x) <= Count([base] + rows, x) {
      CountAppend([base], rows, x);
      InsertCount([base], pid, k, rows, x);
    }
    IdentitiesByCount(r, next);
  }

  /** Copies carry consecutive ids from `next` on, so they share none with the table. */
  lemma CopiesAreFresh(root: Tree, rows: seq<Tree>, next: nat, n: nat)
    requires Identities(root, next) && Ids(NodesOf(rows)) == Range(next, n)
    ensures CountsBelow([root] + rows, next + n)
    ensures forall x :: x in Ids(NodesOf(rows)) ==> next <= x < next + n
  {
    IdentitiesByCount(root, next);
    var range := Range(next, n);
    assert Distinct(range);
    DistinctIsSingle(range);
    forall x | x in range ensures next <= x < next + n {
      var i :| 0 <= i < n && range[i] == x;
    }
    forall x: nat ensures Count([root] + rows, x) <= 1 && (Count([root] + rows, x) > 0 ==> x < next + n) {
      CountAppend([root], rows, x);
      CountIsIds(rows, x);
      assert x in range <==> multiset(range)[x] > 0;
    }
  }

  /** `moveRowsToIndex` keeps the invariant: a move reuses the dragged items, a copy takes fresh
      identities. */
  lemma MoveKeepsIdentities(root: Tree, index: int, copy: bool, dragRows: seq<nat>, pid: nat, next: nat)
    requires forall d :: d in dragRows ==> HasId([root], d)
    requires Identities(root, next)
    requires !copy ==> Distinct(dragRows) && root.id !in dragRows
    ensures var (r, next') := MoveToIndexSpec(root, index, copy, dragRows, pid, next);
            Identities(r, next') && next <= next'
  {
    var (rows, next') := MovedRows(root, dragRows, copy, next);
    var base := if copy then root else Prune(root, set d | d in dragRows);
    var k := Clamp(index, ChildCount(base, pid));
    if copy {
      CopyForestIds(Dragged(root, dragRows), next, true);
      CopiesAreFresh(root, rows, next, SizeOf(Dragged(root, dragRows)));
    } else {
      MoveSplits(root, dragRows, next);
    }
    InsertKeepsIdentities(base, pid, k, rows, next');
  }

  lemma MoveToItemKeepsIdentities(root: Tree, target: Option<nat>, moveIntoIfGroup: bool, copy: bool,
                                  dragRows: seq<nat>, next: nat)
    requires target.Some? ==> HasId([root], target.value)
    requires forall d :: d in dragRows ==> HasId([root], d)
    requires Identities(root, next)
    requires !copy ==> Distinct(dragRows) && root.id !in dragRows
    ensures var (r, next') := MoveToItemSpec(root, target, moveIntoIfGroup, copy, dragRows, next);
            Identities(r, next') && next <= next'
  {
    match DropPlace(root, target, moveIntoIfGroup)
    case None =>
    case Some((pid, index)) => MoveKeepsIdentities(root, index, copy, dragRows, pid, next);
  }

  /** `addSelectedItemsToGroup` keeps the invariant; the group takes the identity `next`. */
  lemma GroupKeepsIdentities(root: Tree, name: string, selected: seq<nat>, next: nat)
    requires forall s :: s in selected ==> HasId([root], s)
    requires selected != [] ==> ParentOf([root], selected[0]).Some?
    requires Identities(root, next) && Distinct(selected) && root.id !in selected
    ensures var (r, next') := GroupSpec(root, name, selected, next);
            Identities(r, next') && next <= next'
  {
    if selected != [] {
      var parent := ParentOf([root], selected[0]).value;
      var index := IndexOf(parent.children, selected[0]);
      var members := MovedRows(root, selected, false, next).0;
      var group := Node(next, GroupRow(name, "", "", ""), false, members);
      var base := Prune(root, set s | s in selected);
      MoveSplits(root, selected, next);
      IdentitiesByCount(root, next);
      forall x: nat ensures Count([base] + [group], x) <= 1 && (Count([base] + [group], x) > 0 ==> x < next + 1) {
        CountAppend([base], [group], x);
        CountAppend([base], members, x);
        CountSingle(group, x);
      }
      InsertKeepsIdentities(base, parent.id, GroupIndex(index, ChildCount(base, parent.id)), [group], next + 1);
    }
  }

  /** Removing a subtree keeps the invariant. */
  lemma PruneKeepsIdentities(t: Tree, ids: set<nat>, next: nat)
    requires Identities(t, next)
    ensures Identities(Prune(t, ids), next)
  {
    IdentitiesByCount(t, next);
    forall x: nat ensures Count([Prune(t, ids)], x) <= Count([t], x) {
      CountSingle(t, x);
      CountSingle(Prune(t, ids), x);
      DetachSplits(t.children, ids, x);
    }
    IdentitiesByCount(Prune(t, ids), next);
  }

  /** `removeCommandTableRow` keeps the invariant, whatever the dialogs answer. */
  lemma {:induction false} RemoveKeepsIdentities(original: Tree, root: Tree, items: seq<nat>,
                                                 confirmNonemptyDelete: bool, answers: seq<bool>, next: nat)
    requires Identities(root, next)
    ensures Identities(RemoveSpec(original, root, items, confirmNonemptyDelete, answers), next)
    decreases |items|
  {
    if items != [] {
      var node := Find([original], items[0]);
      var asks := node.Some? && node.value.row.GroupRow? && confirmNonemptyDelete && node.value.children != [];
      if !(asks && (answers == [] || !answers[0])) {
        PruneKeepsIdentities(root, {items[0]}, next);
        RemoveKeepsIdentities(original, Prune(root, {items[0]}), items[1..], confirmNonemptyDelete,
                              if asks then answers[1..] else answers, next);
      }
    }
  }

  // ---------------------------------------------------------------------------------------------

  /** The edits of the table controller on its table's root. `nextId` supplies identities for the
      TreeItems the edits create. The selection never holds the root, which the table does not
      show (`setShowRoot(false)`), and holds each item once. */
  class CommandTable {
    var root: Tree
    var nextId: nat

    /** Distinct TreeItems, and `nextId` unused. */
    ghost predicate Valid()
      reads this
    {
      Identities(root, nextId)
    }

    constructor (root: Tree, nextId: nat)
      requires Identities(root, nextId)
      ensures Valid()
      ensures this.root == root && this.nextId == nextId
    {
      this.root := root;
      this.nextId := nextId;
    }

    /** `deepCopyRows` / the removal forEach: the subtrees to insert. Copies take identities
        that the table does not use. */
    method TakeRows(copy: bool, dragRows: seq<nat>) returns (rows: seq<Tree>)
      requires Valid()
      requires forall d :: d in dragRows ==> HasId([root], d)
      modifies this
      ensures Valid()
      ensures (rows, nextId) == MovedRows(old(root), dragRows, copy, old(nextId))
      ensures root == if copy then old(root) else Prune(old(root), set d | d in dragRows)
      ensures copy ==> forall x :: x in Ids(NodesOf(rows)) ==> old(nextId) <= x < nextId && x !in Ids(NodesOf([root]))
    {
      var moved := MovedRows(root, dragRows, copy, nextId);
      rows := moved.0;
      if copy {
        CopyForestIds(Dragged(root, dragRows), nextId, true);
        CopiesAreFresh(root, rows, nextId, SizeOf(Dragged(root, dragRows)));
      } else {
        PruneKeepsIdentities(root, (set d | d in dragRows), nextId);
        root := Prune(root, set d | d in dragRows);
      }
      nextId := moved.1;
    }

    method MoveRowsToIndex(index: int, copy: bool, dragRows: seq<nat>, parent: nat)
      requires Valid()
      requires forall d :: d in dragRows ==> HasId([root], d)
      requires !copy ==> Distinct(dragRows) && root.id !in dragRows
      modifies this
      ensures Valid()
      ensures (root, nextId) == MoveToIndexSpec(old(root), index, copy, dragRows, parent, old(nextId))
    {
      MoveKeepsIdentities(root, index, copy, dragRows, parent, nextId);
      var rows := TakeRows(copy, dragRows);
      var size := ChildCount(root, parent);
      var i := index;
      while i > size
        invariant i >= size ==> Clamp(index, size) == size
        invariant i < size ==> i == index
        invariant Clamp(index, size) == Clamp(i, size)
        decreases i - size
      {
        i := i - 1;
      }
      if i < 0 {
        i := 0;
      }
      root := InsertInto(root, parent, i, rows);
    }

    /** `moveRowsToItem`. With no target the source hands `null` on to `moveRowsToIndex`, which then
        moves the selection; every caller in this model passes the selection as `dragRows`, so the
        model hands `dragRows` on. Only a dropped file, which is not modelled, passes other rows. */
    method MoveRowsToItem(target: Option<nat>, moveIntoIfGroup: bool, copy: bool, dragRows: seq<nat>)
      requires Valid()
      requires target.Some? ==> HasId([root], target.value)
      requires forall d :: d in dragRows ==> HasId([root], d)
      requires !copy ==> Distinct(dragRows) && root.id !in dragRows
      modifies this
      ensures Valid()
      ensures (root, nextId) == MoveToItemSpec(old(root), target, moveIntoIfGroup, copy, dragRows, old(nextId))
    {
      if target.None? {
        MoveRowsToIndex(|root.children|, copy, dragRows, root.id);
        return;
      }
      var item := Find([root], target.value).value;
      var parent: Tree;
      if moveIntoIfGroup && item.row.GroupRow? {
        parent := item;
      } else {
        var p := ParentOf([root], target.value);
        if p.None? {
          return;
        }
        parent := p.value;
      }
      var index := IndexOf(parent.children, target.value);
      MoveRowsToIndex(index, copy, dragRows, parent.id);
    }

    method AddSelectedItemsToGroup(name: string, selected: seq<nat>)
      requires Valid()
      requires forall s :: s in selected ==> HasId([root], s)
      requires selected != [] ==> ParentOf([root], selected[0]).Some?
      requires Distinct(selected) && root.id !in selected
      modifies this
      ensures Valid()
      ensures (root, nextId) == GroupSpec(old(root), name, selected, old(nextId))
    {
      GroupKeepsIdentities(root, name, selected, nextId);
      if selected == [] {
        return;
      }
      var parent := ParentOf([root], selected[0]).value;
      var groupId := nextId;
      var moveToIndex := IndexOf(parent.children, selected[0]);
      var members := TakeRows(false, selected);
      nextId := groupId + 1;
      var group := Node(groupId, GroupRow(name, "", "", ""), false, members);
      var size := ChildCount(root, parent.id);
      while moveToIndex >= size && moveToIndex >= 0
        invariant GroupIndex(IndexOf(parent.children, selected[0]), size) == GroupIndex(moveToIndex, size)
        decreases moveToIndex
      {
        moveToIndex := moveToIndex - 1;
      }
      if moveToIndex < 0 {
        moveToIndex := 0;
      }
      root := InsertInto(root, parent.id, moveToIndex, [group]);
    }

    /** `removeCommandTableRow` for the given selection, setting and dialog answers. */
    method RemoveCommandTableRow(selected: seq<nat>, confirmNonemptyDelete: bool, answers: seq<bool>)
      requires Valid()
      modifies this`root
      ensures Valid()
      ensures root == RemoveSpec(old(root), old(root), FilterNested(old(root), selected, 0, selected),
                                 confirmNonemptyDelete, answers)
    {
      var original := root;
      var rows := FilterNestedSelection(root, selected);
      RemoveKeepsIdentities(original, original, rows, confirmNonemptyDelete, answers, nextId);
      var i := 0;
      var a := 0;
      while i < |rows|
        invariant 0 <= i <= |rows| && 0 <= a <= |answers|
        invariant RemoveSpec(original, original, rows, confirmNonemptyDelete, answers)
                  == RemoveSpec(original, root, rows[i..], confirmNonemptyDelete, answers[a..])
      {
        var node := Find([original], rows[i]);
        assert rows[i..][1..] == rows[i + 1..];
        if node.Some? && node.value.row.GroupRow? && confirmNonemptyDelete && node.value.children != [] {
          if a < |answers| && answers[a] {
            assert answers[a..][1..] == answers[a + 1..];
            root := Prune(root, {rows[i]});
            a := a + 1;
          } else {
            return;
          }
        } else {
          root := Prune(root, {rows[i]});
        }
        i := i + 1;
      }
    }

    /** `keyboardMoveSelectedRows(modifier)`: `visibleRows` lists the items in display order
        (`commandTable.getTreeItem(i)` is `null` past its end) and `selectedIndices` the selected
        display positions. `ok == false` is the IllegalStateException for a selection without a
        non-negative index. */
    method KeyboardMoveSelectedRows(modifier: int, selected: seq<nat>, selectedIndices: seq<int>,
                                    visibleRows: seq<nat>) returns (ok: bool)
      requires Valid()
      requires forall s :: s in selected ==> HasId([root], s)
      requires forall v :: v in visibleRows ==> HasId([root], v)
      requires Distinct(selected) && root.id !in selected
      modifies this
      ensures Valid()
      ensures selected == [] ==> ok && root == old(root) && nextId == old(nextId)
      ensures selected != [] ==>
                var start := MinIndex(selectedIndices);
                (ok <==> start.Some?) &&
                (!ok || start.value + modifier < 0 ==> root == old(root) && nextId == old(nextId)) &&
                (ok && start.value + modifier >= 0 ==>
                   var at := start.value + modifier;
                   var target := if at < |visibleRows| then Some(visibleRows[at]) else None;
                   (root, nextId) == MoveToItemSpec(old(root), target, false, false, selected, old(nextId)))
    {
      if selected == [] {
        return true;
      }
      var start := MinNonNegative(selectedIndices);
      MinIndexIsMinimum(selectedIndices, start);
      assert start == MinIndex(selectedIndices);
      if start.None? {
        return false;
      }
      var at := start.value + modifier;
      if at >= 0 {
        var target := if at < |visibleRows| then Some(visibleRows[at]) else None;
        MoveRowsToItem(target, false, false, selected);
      }
      return true;
    }
  }

}
