/** Flattening the command table and collecting the command rows to run
    (src/CommandRunner/gui/commandtable/CommandTableRowTreeItemListManipulator.java, and the copies
    of both helpers in src/CommandRunner/gui/fxml/GUIController.java). */
module TreeItemLists {
  import opened Wrappers
  import opened Status
  import opened Trees

  // ---------------------------------------------------------------------------------------------
  // `getFlatTreeItemList`

  /** The nodes in the order the worklist loop visits them: take the first node of the worklist,
      queue its children at the back. */
  function Bfs(queue: seq<Tree>): seq<Tree>
    decreases |NodesOf(queue)|
  {
    if queue == [] then []
    else
      NodesOfAppend(queue[1..], queue[0].children);
      NodesOfFirst(queue);
      [queue[0]] + Bfs(queue[1..] + queue[0].children)
  }

  /** The children of every node of `ts`, in order. */
  function ChildrenOf(ts: seq<Tree>): seq<Tree>
  {
    if ts == [] then [] else ts[0].children + ChildrenOf(ts[1..])
  }

  /** `getFlatTreeItemList`: a Deque worklist seeded with the root. */
  method GetFlatTreeItemList(root: Tree) returns (items: seq<Tree>)
    ensures items == Bfs([root])
  {
    items := [];
    var rows := [root];
    while rows != []
      invariant items + Bfs(rows) == Bfs([root])
      decreases |NodesOf(rows)|
    {
      var node := rows[0];
      ghost var old_rows := rows;
      ghost var rest := rows[1..];
      rows := rows[1..];
      var i := 0;
      while i < |node.children|
        invariant 0 <= i <= |node.children|
        invariant rows == rest + node.children[..i]
      {
        assert node.children[..i + 1] == node.children[..i] + [node.children[i]];
        rows := rows + [node.children[i]];
        i := i + 1;
      }
      assert node.children[..i] == node.children;
      NodesOfAppend(rest, node.children);
      NodesOfFirst([node] + rest);
      assert [node] + rest == old_rows;
      items := items + [node];
    }
  }

  /** Level order: the whole worklist comes out before any of its children, and those before any of
      theirs; in particular the root is first and is followed by its children in order. */
  lemma {:induction false} BfsIsLevelOrder(a: seq<Tree>, b: seq<Tree>)
    ensures Bfs(a + b) == a + Bfs(b + ChildrenOf(a))
    decreases |a|
  {
    if a == [] {
      assert a + b == b;
      assert b + ChildrenOf(a) == b;
    } else {
      calc {
        Bfs(a + b);
        { assert (a + b)[0] == a[0] && (a + b)[1..] == a[1..] + b; }
        [a[0]] + Bfs(a[1..] + b + a[0].children);
        { assert a[1..] + b + a[0].children == a[1..] + (b + a[0].children); }
        [a[0]] + Bfs(a[1..] + (b + a[0].children));
        { BfsIsLevelOrder(a[1..], b + a[0].children); }
        [a[0]] + (a[1..] + Bfs(b + a[0].children + ChildrenOf(a[1..])));
        { assert b + a[0].children + ChildrenOf(a[1..]) == b + ChildrenOf(a); }
        [a[0]] + a[1..] + Bfs(b + ChildrenOf(a));
        { assert [a[0]] + a[1..] == a; }
        a + Bfs(b + ChildrenOf(a));
      }
    }
  }

  lemma RootFirstThenChildren(root: Tree)
    ensures Bfs([root]) == [root] + Bfs(root.children)
  {
    BfsIsLevelOrder([root], []);
    assert ChildrenOf([root]) == root.children + ChildrenOf([]);
    assert [] + ChildrenOf([root]) == root.children;
  }

  /** Every node of the worklist's trees is listed exactly as often as it occurs in them: the
      flat list is a permutation of the pre-order node list, so its length is the node count. */
  lemma {:induction false} BfsListsEveryNodeOnce(queue: seq<Tree>)
    ensures multiset(Bfs(queue)) == multiset(NodesOf(queue))
    ensures |Bfs(queue)| == |NodesOf(queue)|
    decreases |NodesOf(queue)|
  {
    if queue != [] {
      var next := queue[1..] + queue[0].children;
      NodesOfAppend(queue[1..], queue[0].children);
      NodesOfFirst(queue);
      BfsListsEveryNodeOnce(next);
    }
  }

  // ---------------------------------------------------------------------------------------------
  // `addAllCommandRowsForTreeItem`

  /** A collected command row: the row's identity and its command as updated during collection. */
  datatype Collected = Collected(id: nat, command: CommandData)

  function CollectedIds(rows: seq<Collected>): (r: seq<nat>)
    ensures |r| == |rows| && forall i :: 0 <= i < |rows| ==> r[i] == rows[i].id
  {
    seq(|rows|, i requires 0 <= i < |rows| => rows[i].id)
  }

  /** The directory of the nearest ancestor whose directory is non-empty; `ancestors` runs from the
      root down to the item's parent. */
  function NearestDirectory(ancestors: seq<Row>): Option<string>
  {
    if ancestors == [] then None
    else if Directory(ancestors[|ancestors| - 1]) != "" then Some(Directory(ancestors[|ancestors| - 1]))
    else NearestDirectory(ancestors[..|ancestors| - 1])
  }

  /** `None` exactly when no ancestor has a non-empty directory. */
  lemma {:induction false} NearestDirectoryNone(ancestors: seq<Row>)
    ensures NearestDirectory(ancestors).None? <==> forall i :: 0 <= i < |ancestors| ==> Directory(ancestors[i]) == ""
    decreases |ancestors|
  {
    if ancestors != [] {
      var n := |ancestors| - 1;
      NearestDirectoryNone(ancestors[..n]);
      assert forall i :: 0 <= i < n ==> ancestors[..n][i] == ancestors[i];
    }
  }

  /** Otherwise it is the directory of the last ancestor on the path with a non-empty one, that is
      of the nearest such ancestor. */
  lemma {:induction false} NearestDirectorySome(ancestors: seq<Row>)
    requires NearestDirectory(ancestors).Some?
    ensures exists i :: 0 <= i < |ancestors| && Directory(ancestors[i]) == NearestDirectory(ancestors).value &&
                        Directory(ancestors[i]) != "" &&
                        forall j :: i < j < |ancestors| ==> Directory(ancestors[j]) == ""
    decreases |ancestors|
  {
    var n := |ancestors| - 1;
    var d := NearestDirectory(ancestors).value;
    if Directory(ancestors[n]) == "" {
      var init := ancestors[..n];
      NearestDirectorySome(init);
      var i :| 0 <= i < n && Directory(init[i]) == d && Directory(init[i]) != "" &&
               forall j :: i < j < n ==> Directory(init[j]) == "";
      assert Directory(ancestors[i]) == d;
      forall j | i < j < |ancestors| ensures Directory(ancestors[j]) == "" {
        if j < n {
          assert Directory(init[j]) == "";
        }
      }
    } else {
      assert Directory(ancestors[n]) == d;
    }
  }

  /** The parent walk: `while (parentItem != null) { ... break ... }`. */
  method FindParentCommandDirectory(ancestors: seq<Row>) returns (r: Option<string>)
    ensures r == NearestDirectory(ancestors)
  {
    var i := |ancestors|;
    r := None;
    assert ancestors[..i] == ancestors;
    while i > 0
      invariant 0 <= i <= |ancestors|
      invariant NearestDirectory(ancestors) == NearestDirectory(ancestors[..i])
    {
      var parentCommandDirectory := Directory(ancestors[i - 1]);
      if parentCommandDirectory != "" {
        return Some(parentCommandDirectory);
      }
      assert ancestors[..i][..i - 1] == ancestors[..i - 1];
      i := i - 1;
    }
  }

  /** A newly collected command: its status reset to IDLE when `resetToIdle` (the GUIController
      copy does that), and its parent directory taken from the nearest ancestor that has one. */
  function Inherit(c: CommandData, ancestors: seq<Row>, resetToIdle: bool): CommandData
  {
    var c1 := if resetToIdle then c.(status := Some(Idle)) else c;
    match NearestDirectory(ancestors)
    case Some(d) => c1.(parentDirectory := d)
    case None => c1
  }

  /** The effect of `addAllCommandRowsForTreeItem(item, rows)`; `ancestors` are the rows above the
      item. */
  function Collect(item: Tree, ancestors: seq<Row>, rows: seq<Collected>, resetToIdle: bool)
    : (r: seq<Collected>)
    ensures |rows| <= |r| && r[..|rows|] == rows
    decreases item, 1
  {
    match item.row
    case CommandRow(c, _) =>
      if item.id in CollectedIds(rows) then rows
      else rows + [Collected(item.id, Inherit(c, ancestors, resetToIdle))]
    case GroupRow(_, _, _, _) =>
      CollectAll(item.children, ancestors + [item.row], rows, resetToIdle)
  }

  function CollectAll(ts: seq<Tree>, ancestors: seq<Row>, rows: seq<Collected>, resetToIdle: bool)
    : (r: seq<Collected>)
    ensures |rows| <= |r| && r[..|rows|] == rows
    decreases ts, 0
  {
    if ts == [] then rows
    else
      var r0 := Collect(ts[0], ancestors, rows, resetToIdle);
      var r := CollectAll(ts[1..], ancestors, r0, resetToIdle);
      assert r[..|rows|] == r[..|r0|][..|rows|];
      r
  }

  /** The method form, with the recursion and the `forEach` over children of the source. The
      collected `Command` objects are the ones the table's rows hold, so every write into a
      collected command is a write into `table`: `updated` is the table with this call's entries
      written into it. */
  method AddAllCommandRowsForTreeItem(table: Tree, item: Tree, ancestors: seq<Row>, rows: seq<Collected>,
                                      resetToIdle: bool)
    returns (r: seq<Collected>, updated: Tree)
    ensures r == Collect(item, ancestors, rows, resetToIdle)
    ensures updated == WriteBack(table, r[|rows|..])
    decreases item
  {
    match item.row {
      case CommandRow(c, _) =>
        if item.id in CollectedIds(rows) {
          WriteBackNothing(table);
          assert rows[|rows|..] == [];
          return rows, table;
        }
        var command := c;
        if resetToIdle {
          command := command.(status := Some(Idle));
        }
        var parentDirectory := FindParentCommandDirectory(ancestors);
        if parentDirectory.Some? {
          command := command.(parentDirectory := parentDirectory.value);
        }
        r := rows + [Collected(item.id, command)];
        assert r[|rows|..] == [Collected(item.id, command)];
        updated := WriteBack(table, [Collected(item.id, command)]);
      case GroupRow(_, _, _, _) =>
        r := rows;
        updated := table;
        WriteBackNothing(table);
        assert rows[|rows|..] == [];
        var i := 0;
        while i < |item.children|
          invariant 0 <= i <= |item.children|
          invariant CollectAll(item.children, ancestors + [item.row], rows, resetToIdle)
                    == CollectAll(item.children[i..], ancestors + [item.row], r, resetToIdle)
          invariant |rows| <= |r| && r[..|rows|] == rows
          invariant updated == WriteBack(table, r[|rows|..])
        {
          assert item.children[i..][1..] == item.children[i + 1..];
          var before := r;
          var child := item.children[i];
          r, updated := AddAllCommandRowsForTreeItem(updated, child, ancestors + [item.row], r, resetToIdle);
          CollectAddsOnlyNew(child, ancestors + [item.row], before, resetToIdle);
          PrefixIds(before, before[|rows|..], rows);
          WriteBackTwice(table, before[|rows|..], r[|before|..]);
          assert before[|rows|..] + r[|before|..] == r[|rows|..] by {
            assert r == before + r[|before|..];
            assert before == rows + before[|rows|..];
          }
          i := i + 1;
        }
    }
  }

  /** The command rows a collection run can add, in visiting order: a command row itself (its
      children are never visited), or every collectable row below a group, child by child. */
  function Collectable(t: Tree): seq<nat>
    decreases t, 1
  {
    if t.row.CommandRow? then [t.id] else CollectableOf(t.children)
  }

  function CollectableOf(ts: seq<Tree>): seq<nat>
    decreases ts, 0
  {
    if ts == [] then [] else Collectable(ts[0]) + CollectableOf(ts[1..])
  }

  /** When the item's command rows are distinct and none is collected yet, collection appends
      exactly them, in visiting order, after the existing entries; so no group row is ever added. */
  lemma {:induction false} CollectAppendsCommandRowsInOrder(item: Tree, ancestors: seq<Row>,
                                                            rows: seq<Collected>, resetToIdle: bool)
    requires Distinct(CollectedIds(rows) + Collectable(item))
    ensures CollectedIds(Collect(item, ancestors, rows, resetToIdle)) == CollectedIds(rows) + Collectable(item)
    decreases item, 1
  {
    if item.row.CommandRow? {
      assert item.id !in CollectedIds(rows) by {
        var ids := CollectedIds(rows) + [item.id];
        forall i | 0 <= i < |rows| ensures CollectedIds(rows)[i] != item.id {
          assert ids[i] != ids[|rows|];
        }
      }
      CollectedIdsAppend(rows, [Collected(item.id, Inherit(item.row.command, ancestors, resetToIdle))]);
    } else {
      CollectAllAppendsCommandRowsInOrder(item.children, ancestors + [item.row], rows, resetToIdle);
    }
  }

  lemma {:induction false} CollectAllAppendsCommandRowsInOrder(ts: seq<Tree>, ancestors: seq<Row>,
                                                               rows: seq<Collected>, resetToIdle: bool)
    requires Distinct(CollectedIds(rows) + CollectableOf(ts))
    ensures CollectedIds(CollectAll(ts, ancestors, rows, resetToIdle)) == CollectedIds(rows) + CollectableOf(ts)
    decreases ts, 0
  {
    if ts == [] {
      assert CollectedIds(rows) + CollectableOf(ts) == CollectedIds(rows);
    } else {
      var ids := CollectedIds(rows);
      var first := Collectable(ts[0]);
      var rest := CollectableOf(ts[1..]);
      assert ids + CollectableOf(ts) == (ids + first) + rest;
      DistinctPrefix(ids + first, rest);
      CollectAppendsCommandRowsInOrder(ts[0], ancestors, rows, resetToIdle);
      var r0 := Collect(ts[0], ancestors, rows, resetToIdle);
      CollectAllAppendsCommandRowsInOrder(ts[1..], ancestors, r0, resetToIdle);
    }
  }

  lemma DistinctPrefix(a: seq<nat>, b: seq<nat>)
    requires Distinct(a + b)
    ensures Distinct(a)
  {
    forall i, j | 0 <= i < j < |a| ensures a[i] != a[j] {
      assert a[i] == (a + b)[i] && a[j] == (a + b)[j];
    }
  }

  lemma CollectedIdsAppend(a: seq<Collected>, b: seq<Collected>)
    ensures CollectedIds(a + b) == CollectedIds(a) + CollectedIds(b)
  {
    var l := CollectedIds(a + b);
    var r := CollectedIds(a) + CollectedIds(b);
    assert |l| == |r|;
    forall i | 0 <= i < |l| ensures l[i] == r[i] {
      if i < |a| {
        assert (a + b)[i] == a[i];
      } else {
        assert (a + b)[i] == b[i - |a|];
      }
    }
  }

  /** Collection never creates a duplicate: a list without repeated rows stays without them. */
  lemma {:induction false} CollectKeepsRowsDistinct(item: Tree, ancestors: seq<Row>, rows: seq<Collected>,
                                                    resetToIdle: bool)
    requires Distinct(CollectedIds(rows))
    ensures Distinct(CollectedIds(Collect(item, ancestors, rows, resetToIdle)))
    decreases item, 1
  {
    if item.row.CommandRow? {
      if item.id !in CollectedIds(rows) {
        var r := Collect(item, ancestors, rows, resetToIdle);
        CollectedIdsAppend(rows, [Collected(item.id, Inherit(item.row.command, ancestors, resetToIdle))]);
        assert CollectedIds(r) == CollectedIds(rows) + [item.id];
      }
    } else {
      CollectAllKeepsRowsDistinct(item.children, ancestors + [item.row], rows, resetToIdle);
    }
  }

  lemma {:induction false} CollectAllKeepsRowsDistinct(ts: seq<Tree>, ancestors: seq<Row>,
                                                       rows: seq<Collected>, resetToIdle: bool)
    requires Distinct(CollectedIds(rows))
    ensures Distinct(CollectedIds(CollectAll(ts, ancestors, rows, resetToIdle)))
    decreases ts, 0
  {
    if ts != [] {
      CollectKeepsRowsDistinct(ts[0], ancestors, rows, resetToIdle);
      CollectAllKeepsRowsDistinct(ts[1..], ancestors, Collect(ts[0], ancestors, rows, resetToIdle), resetToIdle);
    }
  }

  /** A command row already in the list changes nothing; a new one is appended with its status reset
      (when asked) and its parent directory set from the nearest ancestor that has one, or left as it
      was when no ancestor has a directory. */
  lemma CollectCommandRow(item: Tree, ancestors: seq<Row>, rows: seq<Collected>, resetToIdle: bool)
    requires item.row.CommandRow?
    ensures var r := Collect(item, ancestors, rows, resetToIdle);
            var c := item.row.command;
            (item.id in CollectedIds(rows) ==> r == rows) &&
            (item.id !in CollectedIds(rows) ==>
               |r| == |rows| + 1 && r[|rows|].id == item.id &&
               r[|rows|].command.nameAndArguments == c.nameAndArguments &&
               r[|rows|].command.directory == c.directory &&
               r[|rows|].command.comment == c.comment &&
               r[|rows|].command.status == (if resetToIdle then Some(Idle) else c.status) &&
               (NearestDirectory(ancestors).Some? ==>
                  r[|rows|].command.parentDirectory == NearestDirectory(ancestors).value) &&
               (NearestDirectory(ancestors).None? ==>
                  r[|rows|].command.parentDirectory == c.parentDirectory))
  {
  }

  // ---------------------------------------------------------------------------------------------
  // The collected commands are the table's own

  /** The command of the first collected entry with that id. */
  function CollectedCommand(rows: seq<Collected>, id: nat): (r: Option<CommandData>)
    ensures r.Some? <==> id in CollectedIds(rows)
  {
    if rows == [] then None
    else if rows[0].id == id then Some(rows[0].command)
    else
      assert CollectedIds(rows) == [rows[0].id] + CollectedIds(rows[1..]);
      CollectedCommand(rows[1..], id)
  }

  /** In a list without a repeated row, an entry's id leads back to that entry's command. */
  lemma {:induction false} CollectedCommandOf(rows: seq<Collected>, k: nat)
    requires Distinct(CollectedIds(rows)) && k < |rows|
    ensures CollectedCommand(rows, rows[k].id) == Some(rows[k].command)
    decreases k
  {
    if k > 0 {
      assert CollectedIds(rows)[0] != CollectedIds(rows)[k];
      assert Distinct(CollectedIds(rows[1..])) by {
        forall i, j | 0 <= i < j < |rows| - 1 ensures CollectedIds(rows[1..])[i] != CollectedIds(rows[1..])[j] {
          assert CollectedIds(rows)[i + 1] != CollectedIds(rows)[j + 1];
        }
      }
      CollectedCommandOf(rows[1..], k - 1);
    }
  }

  lemma {:induction false} CollectedCommandAppend(a: seq<Collected>, b: seq<Collected>, id: nat)
    ensures CollectedCommand(a + b, id) ==
            if id in CollectedIds(a) then CollectedCommand(a, id) else CollectedCommand(b, id)
    decreases |a|
  {
    if a == [] {
      assert a + b == b;
    } else {
      assert (a + b)[1..] == a[1..] + b;
      assert CollectedIds(a) == [a[0].id] + CollectedIds(a[1..]);
      CollectedCommandAppend(a[1..], b, id);
    }
  }

  /** The row a node shows once the collected commands are written into the commands it holds. */
  function Written(t: Tree, rows: seq<Collected>): Row
  {
    match t.row
    case CommandRow(c, s) =>
      (match CollectedCommand(rows, t.id)
       case Some(written) => CommandRow(written, s)
       case None => t.row)
    case GroupRow(_, _, _, _) => t.row
  }

  /** The table once the collected commands are written into it. */
  function WriteBack(t: Tree, rows: seq<Collected>): Tree
    decreases t, 1
  {
    Node(t.id, Written(t, rows), t.expanded, WriteBackAll(t.children, rows))
  }

  function WriteBackAll(ts: seq<Tree>, rows: seq<Collected>): (r: seq<Tree>)
    ensures |r| == |ts| && forall i :: 0 <= i < |ts| ==> r[i] == WriteBack(ts[i], rows)
    decreases ts, 0
  {
    if ts == [] then [] else [WriteBack(ts[0], rows)] + WriteBackAll(ts[1..], rows)
  }

  /** Writing nothing leaves the table as it was. */
  lemma {:induction false} WriteBackNothing(t: Tree)
    ensures WriteBack(t, []) == t
    decreases t
  {
    forall i | 0 <= i < |t.children| ensures WriteBack(t.children[i], []) == t.children[i] {
      WriteBackNothing(t.children[i]);
    }
    assert WriteBackAll(t.children, []) == t.children;
  }

  /** Two writes of different rows are one write of both. */
  lemma {:induction false} WriteBackTwice(t: Tree, a: seq<Collected>, b: seq<Collected>)
    requires forall x :: x in CollectedIds(a) ==> x !in CollectedIds(b)
    ensures WriteBack(WriteBack(t, a), b) == WriteBack(t, a + b)
    decreases t
  {
    CollectedCommandAppend(a, b, t.id);
    forall i | 0 <= i < |t.children|
      ensures WriteBack(WriteBack(t.children[i], a), b) == WriteBack(t.children[i], a + b)
    {
      WriteBackTwice(t.children[i], a, b);
    }
    assert WriteBackAll(WriteBackAll(t.children, a), b) == WriteBackAll(t.children, a + b);
  }

  lemma PrefixIds(r: seq<Collected>, tail: seq<Collected>, rows: seq<Collected>)
    requires |rows| <= |r| && r[..|rows|] == rows && tail == r[|rows|..]
    ensures forall x :: x in CollectedIds(tail) ==> x in CollectedIds(r)
    ensures forall x :: x in CollectedIds(rows) ==> x in CollectedIds(r)
  {
    assert r == rows + tail;
    CollectedIdsAppend(rows, tail);
  }

  /** A collection appends only rows that were not in the list it was given. */
  lemma {:induction false} CollectAddsOnlyNew(item: Tree, ancestors: seq<Row>, rows: seq<Collected>,
                                              resetToIdle: bool)
    ensures var r := Collect(item, ancestors, rows, resetToIdle);
            forall x :: x in CollectedIds(r[|rows|..]) ==> x !in CollectedIds(rows)
    decreases item, 1
  {
    var r := Collect(item, ancestors, rows, resetToIdle);
    if item.row.CommandRow? {
      if item.id !in CollectedIds(rows) {
        assert r[|rows|..] == [Collected(item.id, Inherit(item.row.command, ancestors, resetToIdle))];
      } else {
        assert r[|rows|..] == [];
      }
    } else {
      CollectAllAddsOnlyNew(item.children, ancestors + [item.row], rows, resetToIdle);
    }
  }

  lemma {:induction false} CollectAllAddsOnlyNew(ts: seq<Tree>, ancestors: seq<Row>, rows: seq<Collected>,
                                                 resetToIdle: bool)
    ensures var r := CollectAll(ts, ancestors, rows, resetToIdle);
            forall x :: x in CollectedIds(r[|rows|..]) ==> x !in CollectedIds(rows)
    decreases ts, 0
  {
    var r := CollectAll(ts, ancestors, rows, resetToIdle);
    if ts == [] {
      assert r[|rows|..] == [];
    } else {
      var r0 := Collect(ts[0], ancestors, rows, resetToIdle);
      CollectAddsOnlyNew(ts[0], ancestors, rows, resetToIdle);
      CollectAllAddsOnlyNew(ts[1..], ancestors, r0, resetToIdle);
      PrefixIds(r0, r0[|rows|..], rows);
      assert r[|rows|..] == r0[|rows|..] + r[|r0|..] by {
        assert r == r0 + r[|r0|..];
        assert r0 == rows + r0[|rows|..];
      }
      CollectedIdsAppend(r0[|rows|..], r[|r0|..]);
    }
  }

  /** The nodes of the written table, in pre-order, are the written nodes of the table. */
  lemma {:induction false} WriteBackNodes(t: Tree, rows: seq<Collected>)
    ensures |Nodes(WriteBack(t, rows))| == |Nodes(t)|
    ensures forall n :: 0 <= n < |Nodes(t)| ==> Nodes(WriteBack(t, rows))[n] == WriteBack(Nodes(t)[n], rows)
    decreases t, 1
  {
    WriteBackNodesOf(t.children, rows);
  }

  lemma {:induction false} WriteBackNodesOf(ts: seq<Tree>, rows: seq<Collected>)
    ensures |NodesOf(WriteBackAll(ts, rows))| == |NodesOf(ts)|
    ensures forall n :: 0 <= n < |NodesOf(ts)| ==>
              NodesOf(WriteBackAll(ts, rows))[n] == WriteBack(NodesOf(ts)[n], rows)
    decreases ts, 0
  {
    if ts != [] {
      var w := WriteBackAll(ts, rows);
      assert w[0] == WriteBack(ts[0], rows) && w[1..] == WriteBackAll(ts[1..], rows);
      WriteBackNodes(ts[0], rows);
      WriteBackNodesOf(ts[1..], rows);
    }
  }

  /** What a write does to one node: it keeps the node's id, expansion and kind of row; a command
      row with a collected entry shows that entry's command and keeps its status text; every other
      row stays as it was. */
  lemma WrittenNode(t: Tree, rows: seq<Collected>)
    ensures var w := WriteBack(t, rows);
            w.id == t.id && w.expanded == t.expanded && |w.children| == |t.children| &&
            (t.row.CommandRow? && t.id in CollectedIds(rows) ==>
               w.row == CommandRow(CollectedCommand(rows, t.id).value, t.row.status)) &&
            (!t.row.CommandRow? || t.id !in CollectedIds(rows) ==> w.row == t.row)
  {
  }
}
