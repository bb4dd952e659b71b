/** Running the commands of the main window's table (src/CommandRunner/gui/fxml/GUIController.java):
    `runAllCommandsWithComment` picks, in breadth-first order, the items whose comment matches and
    collects their command rows, resetting each status to IDLE; the collected commands are what the
    command queue is then given. */
module GuiRuns {
  import opened Wrappers
  import opened Status
  import opened Trees
  import opened TreeItemLists

  /** The rows above the first node with that id, from the forest's top down to its parent. */
  function AncestorRows(ts: seq<Tree>, id: nat): (r: Option<seq<Row>>)
    ensures r.Some? <==> Find(ts, id).Some?
    decreases ts
  {
    if ts == [] then None
    else if ts[0].id == id then Some([])
    else
      match AncestorRows(ts[0].children, id)
      case Some(above) => Some([ts[0].row] + above)
      case None => AncestorRows(ts[1..], id)
  }

  /** What `item.getParent()` climbs through below `root`; a node outside the tree has none. */
  function Above(root: Tree, id: nat): seq<Row>
  {
    match AncestorRows([root], id)
    case Some(above) => above
    case None => []
  }

  /** The items whose row comment equals `comment`, in their order. */
  function WithComment(items: seq<Tree>, comment: string): (r: seq<Tree>)
    ensures |r| <= |items|
    ensures forall t :: t in r <==> t in items && Comment(t.row) == comment
  {
    if items == [] then []
    else (if Comment(items[0].row) == comment then [items[0]] else []) + WithComment(items[1..], comment)
  }

  /** The loop building `commandsWithComment`. */
  method CommandsWithComment(all: seq<Tree>, comment: string) returns (r: seq<Tree>)
    ensures r == WithComment(all, comment)
  {
    r := [];
    var i := |all|;
    while i > 0
      invariant 0 <= i <= |all|
      invariant r == WithComment(all[i..], comment)
    {
      i := i - 1;
      assert all[i..][1..] == all[i + 1..];
      r := (if Comment(all[i].row) == comment then [all[i]] else []) + r;
    }
    assert all[0..] == all;
  }

  /** `treeItemsToRun.forEach(item -> addAllCommandRowsForTreeItem(item, rows))`. */
  function RunItems(root: Tree, items: seq<Tree>, rows: seq<Collected>): (r: seq<Collected>)
    ensures |rows| <= |r| && r[..|rows|] == rows
  {
    if items == [] then rows
    else
      var r0 := Collect(items[0], Above(root, items[0].id), rows, true);
      var r := RunItems(root, items[1..], r0);
      assert r[..|rows|] == r[..|r0|][..|rows|];
      r
  }

  /** `runCommandTreeItems`: the rows handed to the queue, and the table with every collected
      command written into it. The ancestors are read from `root`: a run writes only a command's
      status and parent directory, never a directory. */
  method RunCommandTreeItems(root: Tree, items: seq<Tree>) returns (rows: seq<Collected>, table: Tree)
    ensures rows == RunItems(root, items, [])
    ensures table == WriteBack(root, rows)
  {
    rows := [];
    table := root;
    WriteBackNothing(root);
    var i := 0;
    while i < |items|
      invariant 0 <= i <= |items|
      invariant RunItems(root, items, []) == RunItems(root, items[i..], rows)
      invariant table == WriteBack(root, rows)
    {
      assert items[i..][1..] == items[i + 1..];
      var before := rows;
      rows, table := AddAllCommandRowsForTreeItem(table, items[i], Above(root, items[i].id), rows, true);
      CollectAddsOnlyNew(items[i], Above(root, items[i].id), before, true);
      WriteBackTwice(root, before, rows[|before|..]);
      assert before + rows[|before|..] == rows;
      i := i + 1;
    }
  }

  /** `runAllCommandsWithComment(comment, root)`: `None` when nothing runs, otherwise the commands
      handed to the queue. */
  function RunAllSpec(comment: Option<string>, root: Tree): Option<seq<Collected>>
  {
    if comment.None? || comment.value == "" then None
    else Some(RunItems(root, WithComment(Bfs([root]), comment.value), []))
  }

  method RunAllCommandsWithComment(comment: Option<string>, root: Tree)
    returns (run: Option<seq<Collected>>, table: Tree)
    ensures run == RunAllSpec(comment, root)
    ensures comment.None? || comment == Some("") ==> run.None?
    ensures table == if run.Some? then WriteBack(root, run.value) else root
  {
    if comment.None? || comment.value == "" {
      return None, root;
    }
    var all := GetFlatTreeItemList(root);
    var commandsWithComment := CommandsWithComment(all, comment.value);
    var rows;
    rows, table := RunCommandTreeItems(root, commandsWithComment);
    run := Some(rows);
  }

  /** The items a run starts from are exactly the table's nodes with that comment. */
  lemma RunStartsFromCommentedItems(root: Tree, comment: string)
    ensures forall t :: t in WithComment(Bfs([root]), comment) <==> t in NodesOf([root]) && Comment(t.row) == comment
  {
    BfsListsEveryNodeOnce([root]);
    forall t ensures t in Bfs([root]) <==> t in NodesOf([root]) {
      assert t in Bfs([root]) <==> t in multiset(Bfs([root]));
      assert t in NodesOf([root]) <==> t in multiset(NodesOf([root]));
    }
  }

  /** Every collected command from position `n` on is IDLE. */
  predicate IdleFrom(r: seq<Collected>, n: nat)
  {
    forall i :: n <= i < |r| ==> r[i].command.status == Some(Idle)
  }

  lemma IdleFromPrefix(r: seq<Collected>, r0: seq<Collected>, n: nat)
    requires |r0| <= |r| && r[..|r0|] == r0
    requires IdleFrom(r0, n) && IdleFrom(r, |r0|)
    ensures IdleFrom(r, n)
  {
    forall i | n <= i < |r| ensures r[i].command.status == Some(Idle) {
      if i < |r0| {
        assert r[i] == r[..|r0|][i];
      }
    }
  }

  /** Every command this collection adds has its status reset to IDLE. */
  lemma {:induction false} CollectResetsToIdle(item: Tree, ancestors: seq<Row>, rows: seq<Collected>)
    ensures IdleFrom(Collect(item, ancestors, rows, true), |rows|)
    decreases item, 1
  {
    match item.row
    case CommandRow(c, _) =>
      var r := Collect(item, ancestors, rows, true);
      if item.id !in CollectedIds(rows) {
        assert r == rows + [Collected(item.id, Inherit(c, ancestors, true))];
        assert Inherit(c, ancestors, true).status == Some(Idle);
      }
    case GroupRow(_, _, _, _) =>
      CollectAllResetsToIdle(item.children, ancestors + [item.row], rows);
  }

  lemma {:induction false} CollectAllResetsToIdle(ts: seq<Tree>, ancestors: seq<Row>, rows: seq<Collected>)
    ensures IdleFrom(CollectAll(ts, ancestors, rows, true), |rows|)
    decreases ts, 0
  {
    if ts != [] {
      var r0 := Collect(ts[0], ancestors, rows, true);
      CollectResetsToIdle(ts[0], ancestors, rows);
      CollectAllResetsToIdle(ts[1..], ancestors, r0);
      IdleFromPrefix(CollectAll(ts[1..], ancestors, r0, true), r0, |rows|);
    }
  }

  lemma {:induction false} RunItemsResetsToIdle(root: Tree, items: seq<Tree>, rows: seq<Collected>)
    ensures IdleFrom(RunItems(root, items, rows), |rows|)
    decreases |items|
  {
    if items != [] {
      var r0 := Collect(items[0], Above(root, items[0].id), rows, true);
      CollectResetsToIdle(items[0], Above(root, items[0].id), rows);
      RunItemsResetsToIdle(root, items[1..], r0);
      IdleFromPrefix(RunItems(root, items[1..], r0), r0, |rows|);
    }
  }

  /** A run never lists a command row twice. */
  lemma {:induction false} RunItemsKeepsRowsDistinct(root: Tree, items: seq<Tree>, rows: seq<Collected>)
    requires Distinct(CollectedIds(rows))
    ensures Distinct(CollectedIds(RunItems(root, items, rows)))
    decreases |items|
  {
    if items != [] {
      CollectKeepsRowsDistinct(items[0], Above(root, items[0].id), rows, true);
      RunItemsKeepsRowsDistinct(root, items[1..], Collect(items[0], Above(root, items[0].id), rows, true));
    }
  }

  /** So every command a run hands to the queue is IDLE, and none is listed twice. */
  lemma RunAllHandsOverIdleDistinctCommands(comment: Option<string>, root: Tree)
    ensures RunAllSpec(comment, root).Some? ==>
              var run := RunAllSpec(comment, root).value;
              Distinct(CollectedIds(run)) &&
              forall i :: 0 <= i < |run| ==> run[i].command.status == Some(Idle)
  {
    if RunAllSpec(comment, root).Some? {
      var items := WithComment(Bfs([root]), comment.value);
      RunItemsResetsToIdle(root, items, []);
      RunItemsKeepsRowsDistinct(root, items, []);
    }
  }

  lemma IndexOfCollected(rows: seq<Collected>, id: nat) returns (k: nat)
    requires id in CollectedIds(rows)
    ensures k < |rows| && rows[k].id == id
  {
    var ids := CollectedIds(rows);
    k :| 0 <= k < |ids| && ids[k] == id;
  }

  /** After a run, the table's collected command rows hold the very commands handed to the queue,
      all IDLE; every other row is as it was, and no node moves. */
  lemma RunWritesCollectedCommands(root: Tree, items: seq<Tree>)
    ensures var rows := RunItems(root, items, []);
            var before := NodesOf([root]);
            var after := NodesOf([WriteBack(root, rows)]);
            |after| == |before| &&
            (forall n :: 0 <= n < |before| ==>
               after[n].id == before[n].id && after[n].expanded == before[n].expanded &&
               (before[n].row.CommandRow? && before[n].id in CollectedIds(rows) ==>
                  after[n].row.CommandRow? && after[n].row.status == before[n].row.status &&
                  after[n].row.command.status == Some(Idle)) &&
               (!before[n].row.CommandRow? || before[n].id !in CollectedIds(rows) ==>
                  after[n].row == before[n].row)) &&
            (forall n, k ::
               0 <= n < |before| && 0 <= k < |rows| && before[n].id == rows[k].id && before[n].row.CommandRow? ==>
                 after[n].row.command == rows[k].command)
  {
    var rows := RunItems(root, items, []);
    var before := NodesOf([root]);
    var after := NodesOf([WriteBack(root, rows)]);
    assert WriteBackAll([root], rows) == [WriteBack(root, rows)];
    WriteBackNodesOf([root], rows);
    RunItemsKeepsRowsDistinct(root, items, []);
    RunItemsResetsToIdle(root, items, []);
    forall n | 0 <= n < |before|
      ensures after[n].id == before[n].id && after[n].expanded == before[n].expanded
      ensures before[n].row.CommandRow? && before[n].id in CollectedIds(rows) ==>
                after[n].row.CommandRow? && after[n].row.status == before[n].row.status &&
                after[n].row.command.status == Some(Idle)
      ensures !before[n].row.CommandRow? || before[n].id !in CollectedIds(rows) ==> after[n].row == before[n].row
    {
      WrittenNode(before[n], rows);
      if before[n].row.CommandRow? && before[n].id in CollectedIds(rows) {
        var k := IndexOfCollected(rows, before[n].id);
        CollectedCommandOf(rows, k);
      }
    }
    forall n, k | 0 <= n < |before| && 0 <= k < |rows| && before[n].id == rows[k].id && before[n].row.CommandRow?
      ensures after[n].row.command == rows[k].command
    {
      WrittenNode(before[n], rows);
      CollectedCommandOf(rows, k);
    }
  }
}
