/** Group-status roll-up and deep copy of table rows
    (src/CommandRunner/gui/commandtable/CommandTableController.java, and the copies in
    src/CommandRunner/gui/fxml/GUIController.java). */
module TableStatus {
  import opened Wrappers
  import opened Status
  import opened Trees

  function RowStatus(r: Row): string
  {
    r.status
  }

  function WithStatus(r: Row, s: string): (r': Row)
    ensures RowStatus(r') == s
  {
    r.(status := s)
  }

  // ---------------------------------------------------------------------------------------------
  // `updateGroupStatuses`

  /** The status a node with children takes: the first child's status when every child has the same
      one, the empty string otherwise. */
  function CommonStatus(cs: seq<Tree>): string
    requires cs != []
  {
    if forall i :: 0 <= i < |cs| ==> RowStatus(cs[i].row) == RowStatus(cs[0].row) then RowStatus(cs[0].row) else ""
  }

  /** Post-order: first every child, then the node itself from its updated children; leaves are left
      as they are. */
  function UpdateGroupStatuses(t: Tree): Tree
    decreases t, 1
  {
    var cs := UpdateAll(t.children);
    if cs == [] then t else t.(row := WithStatus(t.row, CommonStatus(cs)), children := cs)
  }

  function UpdateAll(ts: seq<Tree>): (r: seq<Tree>)
    ensures |r| == |ts|
    decreases ts, 0
  {
    if ts == [] then [] else [UpdateGroupStatuses(ts[0])] + UpdateAll(ts[1..])
  }

  lemma {:induction false} UpdateAllAt(ts: seq<Tree>, i: nat)
    requires i < |ts|
    ensures UpdateAll(ts)[i] == UpdateGroupStatuses(ts[i])
    decreases |ts|
  {
    if i > 0 {
      UpdateAllAt(ts[1..], i - 1);
    }
  }

  /** Every node with children carries the common status of its children. */
  predicate RolledUp(t: Tree)
    decreases t
  {
    (t.children != [] ==> RowStatus(t.row) == CommonStatus(t.children)) &&
    forall i :: 0 <= i < |t.children| ==> RolledUp(t.children[i])
  }

  /** Equal except possibly the status of nodes that have children. */
  predicate SameExceptGroupStatus(a: Tree, b: Tree)
    decreases a
  {
    a.id == b.id && a.expanded == b.expanded && |a.children| == |b.children| &&
    (if a.children == [] then a.row == b.row else a.row == WithStatus(b.row, RowStatus(a.row))) &&
    forall i :: 0 <= i < |a.children| ==> SameExceptGroupStatus(a.children[i], b.children[i])
  }

  /** The roll-up changes only statuses of nodes with children, and afterwards every such node
      carries the common status of its (rolled-up) children. */
  lemma {:induction false} UpdateGroupStatusesRollsUp(t: Tree)
    ensures RolledUp(UpdateGroupStatuses(t))
    ensures SameExceptGroupStatus(t, UpdateGroupStatuses(t))
    decreases t
  {
    var cs := UpdateAll(t.children);
    forall i | 0 <= i < |t.children|
      ensures RolledUp(cs[i]) && SameExceptGroupStatus(t.children[i], cs[i])
    {
      UpdateAllAt(t.children, i);
      UpdateGroupStatusesRollsUp(t.children[i]);
    }
    if cs != [] {
      var r := UpdateGroupStatuses(t);
      assert r.row == WithStatus(t.row, CommonStatus(cs));
      assert t.row == WithStatus(r.row, RowStatus(t.row));
    }
  }

  lemma {:induction false} SameExceptIsSymmetric(a: Tree, b: Tree)
    requires SameExceptGroupStatus(a, b)
    ensures SameExceptGroupStatus(b, a)
    decreases a
  {
    forall i | 0 <= i < |a.children| ensures SameExceptGroupStatus(b.children[i], a.children[i]) {
      SameExceptIsSymmetric(a.children[i], b.children[i]);
    }
  }

  /** The roll-up is the only rolled-up tree that differs from the input at most in the statuses of
      nodes with children. */
  lemma {:induction false} RollUpIsUnique(t: Tree, r: Tree)
    requires SameExceptGroupStatus(t, r) && RolledUp(r)
    ensures r == UpdateGroupStatuses(t)
    decreases t
  {
    var cs := UpdateAll(t.children);
    forall i | 0 <= i < |t.children| ensures r.children[i] == cs[i] {
      RollUpIsUnique(t.children[i], r.children[i]);
      UpdateAllAt(t.children, i);
    }
    assert r.children == cs;
    if t.children != [] {
      assert r.row == WithStatus(t.row, RowStatus(r.row));
    }
  }

  /** Rolling up twice is rolling up once. */
  lemma UpdateGroupStatusesIsIdempotent(t: Tree)
    ensures UpdateGroupStatuses(UpdateGroupStatuses(t)) == UpdateGroupStatuses(t)
  {
    var r := UpdateGroupStatuses(t);
    UpdateGroupStatusesRollsUp(t);
    UpdateGroupStatusesRollsUp(r);
    var rr := UpdateGroupStatuses(r);
    SameExceptIsSymmetric(r, rr);
    SameExceptIsSymmetric(t, r);
    RollUpIsUnique(r, r) by {
      SameExceptIsReflexive(r);
    }
  }

  lemma {:induction false} SameExceptIsReflexive(a: Tree)
    ensures SameExceptGroupStatus(a, a)
    decreases a
  {
    forall i | 0 <= i < |a.children| ensures SameExceptGroupStatus(a.children[i], a.children[i]) {
      SameExceptIsReflexive(a.children[i]);
    }
  }

  // ---------------------------------------------------------------------------------------------
  // `copyTreeItem`

  /** `Command.copy()`: a fresh command with the same three strings, status IDLE, no inherited
      directory. */
  function CopyCommand(c: CommandData): CommandData
  {
    CommandData(c.nameAndArguments, c.directory, c.comment, "", Some(Idle))
  }

  /** The row a copy gets: a new command row (status text "idle") around a copy of the command, or a
      new group row with status "". The table controller's groups keep name, directory and comment;
      the GUIController copy (`keepGroupDetails == false`) keeps only the name. */
  function CopyRow(r: Row, keepGroupDetails: bool): Row
  {
    match r
    case CommandRow(c, _) => CommandRow(CopyCommand(c), StringValue(Idle))
    case GroupRow(name, directory, comment, _) =>
      if keepGroupDetails then GroupRow(name, directory, comment, "") else GroupRow(name, "", "", "")
  }

  /** A deep copy; the new nodes are numbered `next, next + 1, ...` in pre-order and collapsed,
      so a copy of `t` uses the numbers up to `next + Size(t)`. */
  function CopyTree(t: Tree, next: nat, keepGroupDetails: bool): (r: Tree)
    decreases t, 1
  {
    Node(next, CopyRow(t.row, keepGroupDetails), false, CopyForest(t.children, next + 1, keepGroupDetails))
  }

  function CopyForest(ts: seq<Tree>, next: nat, keepGroupDetails: bool): (r: seq<Tree>)
    ensures |r| == |ts|
    decreases ts, 0
  {
    if ts == [] then []
    else [CopyTree(ts[0], next, keepGroupDetails)]
         + CopyForest(ts[1..], next + Size(ts[0]), keepGroupDetails)
  }

  /** The number of nodes of a tree, counted without listing them. */
  function Size(t: Tree): (n: nat)
    decreases t, 1
  {
    1 + SizeOf(t.children)
  }

  function SizeOf(ts: seq<Tree>): (n: nat)
    decreases ts, 0
  {
    if ts == [] then 0 else Size(ts[0]) + SizeOf(ts[1..])
  }

  lemma {:induction false} SizeCountsNodes(t: Tree)
    ensures Size(t) == |Nodes(t)|
    decreases t, 1
  {
    SizeOfCountsNodes(t.children);
  }

  lemma {:induction false} SizeOfCountsNodes(ts: seq<Tree>)
    ensures SizeOf(ts) == |NodesOf(ts)|
    decreases ts, 0
  {
    if ts != [] {
      SizeCountsNodes(ts[0]);
      SizeOfCountsNodes(ts[1..]);
    }
  }

  /** `c` is a copy of `t`: the same shape, each row copied as `CopyRow` says, every node collapsed. */
  predicate IsCopy(t: Tree, c: Tree, keepGroupDetails: bool)
    decreases t
  {
    c.row == CopyRow(t.row, keepGroupDetails) && !c.expanded && |c.children| == |t.children| &&
    forall i :: 0 <= i < |t.children| ==> IsCopy(t.children[i], c.children[i], keepGroupDetails)
  }

  function Range(lo: nat, n: nat): (r: seq<nat>)
    ensures |r| == n && forall i :: 0 <= i < n ==> r[i] == lo + i
  {
    if n == 0 then [] else Range(lo, n - 1) + [lo + n - 1]
  }

  lemma {:induction false} RangeAppend(lo: nat, a: nat, b: nat)
    ensures Range(lo, a + b) == Range(lo, a) + Range(lo + a, b)
  {
    var l := Range(lo, a + b);
    var r := Range(lo, a) + Range(lo + a, b);
    assert |l| == |r|;
    forall i | 0 <= i < |l| ensures l[i] == r[i] {
      if i >= a {
        assert r[i] == Range(lo + a, b)[i - a];
      }
    }
  }

  /** A copy has the original's shape and copied rows. */
  lemma {:induction false} CopyTreeIsCopy(t: Tree, next: nat, keepGroupDetails: bool)
    ensures IsCopy(t, CopyTree(t, next, keepGroupDetails), keepGroupDetails)
    decreases t, 1
  {
    CopyForestIsCopy(t.children, next + 1, keepGroupDetails);
  }

  lemma {:induction false} CopyForestIsCopy(ts: seq<Tree>, next: nat, keepGroupDetails: bool)
    ensures var cs := CopyForest(ts, next, keepGroupDetails);
            forall i :: 0 <= i < |ts| ==> IsCopy(ts[i], cs[i], keepGroupDetails)
    decreases ts, 0
  {
    if ts != [] {
      var mid := next + Size(ts[0]);
      CopyTreeIsCopy(ts[0], next, keepGroupDetails);
      CopyForestIsCopy(ts[1..], mid, keepGroupDetails);
      var all := CopyForest(ts, next, keepGroupDetails);
      assert all[1..] == CopyForest(ts[1..], mid, keepGroupDetails);
      forall i | 0 <= i < |ts| ensures IsCopy(ts[i], all[i], keepGroupDetails) {
        if i > 0 {
          assert ts[i] == ts[1..][i - 1] && all[i] == all[1..][i - 1];
        }
      }
    }
  }

  /** The copy's nodes carry the consecutive ids `next, next + 1, ...` in pre-order, so they are
      distinct and all at least `next`. */
  lemma {:induction false} CopyTreeIds(t: Tree, next: nat, keepGroupDetails: bool)
    ensures Ids(Nodes(CopyTree(t, next, keepGroupDetails))) == Range(next, Size(t))
    decreases t, 1
  {
    var cs := CopyForest(t.children, next + 1, keepGroupDetails);
    CopyForestIds(t.children, next + 1, keepGroupDetails);
    var c := CopyTree(t, next, keepGroupDetails);
    assert Nodes(c) == [c] + NodesOf(cs);
    assert Ids([c]) == Range(next, 1);
    IdsOfConsecutive([c], NodesOf(cs), next, 1, SizeOf(t.children), Size(t));
  }

  lemma {:induction false} CopyForestIds(ts: seq<Tree>, next: nat, keepGroupDetails: bool)
    ensures Ids(NodesOf(CopyForest(ts, next, keepGroupDetails))) == Range(next, SizeOf(ts))
    decreases ts, 0
  {
    if ts != [] {
      CopyTreeIds(ts[0], next, keepGroupDetails);
      CopyForestIds(ts[1..], next + Size(ts[0]), keepGroupDetails);
      CopyForestIdsStep(ts, next, keepGroupDetails);
    } else {
      assert Range(next, 0) == [];
    }
  }

  /** The step of `CopyForestIds`: the first copy's ids, then the rest's. */
  lemma CopyForestIdsStep(ts: seq<Tree>, next: nat, keepGroupDetails: bool)
    requires ts != []
    requires Ids(Nodes(CopyTree(ts[0], next, keepGroupDetails))) == Range(next, Size(ts[0]))
    requires var mid := next + Size(ts[0]);
             Ids(NodesOf(CopyForest(ts[1..], mid, keepGroupDetails))) == Range(mid, SizeOf(ts[1..]))
    ensures Ids(NodesOf(CopyForest(ts, next, keepGroupDetails))) == Range(next, SizeOf(ts))
  {
    var first := CopyTree(ts[0], next, keepGroupDetails);
    var rest := CopyForest(ts[1..], next + Size(ts[0]), keepGroupDetails);
    var all := CopyForest(ts, next, keepGroupDetails);
    assert NodesOf(all) == Nodes(first) + NodesOf(rest) by {
      assert all[0] == first && all[1..] == rest;
    }
    assert SizeOf(ts) == Size(ts[0]) + SizeOf(ts[1..]);
    IdsOfConsecutive(Nodes(first), NodesOf(rest), next, Size(ts[0]), SizeOf(ts[1..]), SizeOf(ts));
  }

  lemma IdsOfConsecutive(x: seq<Tree>, y: seq<Tree>, next: nat, a: nat, b: nat, n: nat)
    requires n == a + b
    requires Ids(x) == Range(next, a) && Ids(y) == Range(next + a, b)
    ensures Ids(x + y) == Range(next, n)
  {
    IdsAppend(x, y);
    RangeAppend(next, a, b);
  }

  // ---------------------------------------------------------------------------------------------
  // The recursive methods of the controllers, with their `forEach` loops over the children

  /** `updateGroupStatuses(node)`: every child first, then the `anyMatch` test over the updated
      children. */
  method RollUpGroupStatuses(t: Tree) returns (r: Tree)
    ensures r == UpdateGroupStatuses(t)
    decreases t
  {
    var children: seq<Tree> := [];
    var i := 0;
    while i < |t.children|
      invariant 0 <= i <= |t.children| && |children| == i
      invariant forall j :: 0 <= j < i ==> children[j] == UpdateGroupStatuses(t.children[j])
    {
      var child := RollUpGroupStatuses(t.children[i]);
      children := children + [child];
      i := i + 1;
    }
    forall j | 0 <= j < |t.children| ensures children[j] == UpdateAll(t.children)[j] {
      UpdateAllAt(t.children, j);
    }
    assert children == UpdateAll(t.children);
    if children == [] {
      return t;
    }
    var status := ChildrenStatus(children);
    r := t.(row := WithStatus(t.row, status), children := children);
  }

  /** The `allMatch` test of `updateGroupStatuses`: the first child's status when every child has
      it, and "" otherwise. */
  method ChildrenStatus(children: seq<Tree>) returns (status: string)
    requires children != []
    ensures status == CommonStatus(children)
  {
    var first := RowStatus(children[0].row);
    var sameStatus := true;
    var k := 0;
    while k < |children|
      invariant 0 <= k <= |children|
      invariant sameStatus <==> forall j :: 0 <= j < k ==> RowStatus(children[j].row) == first
    {
      if RowStatus(children[k].row) != first {
        sameStatus := false;
      }
      k := k + 1;
    }
    status := if sameStatus then first else "";
  }

  /** `copyTreeItem(treeItem)`: a new item around the copied row, then a copy of each child added
      in turn; `next` numbers the new items and `after` is the first number left unused. */
  method CopyTreeItem(t: Tree, next: nat, keepGroupDetails: bool) returns (r: Tree, after: nat)
    ensures r == CopyTree(t, next, keepGroupDetails)
    ensures after == next + Size(t)
    decreases t
  {
    var row := CopyRow(t.row, keepGroupDetails);
    var children: seq<Tree> := [];
    after := next + 1;
    var i := 0;
    CopiedSoFarStart(t.children, next + 1, keepGroupDetails);
    while i < |t.children|
      invariant 0 <= i <= |t.children|
      invariant CopiedSoFar(t.children, i, children, after, next + 1, keepGroupDetails)
    {
      var child, after' := CopyTreeItem(t.children[i], after, keepGroupDetails);
      CopiedSoFarStep(t.children, i, children, after, child, after', next + 1, keepGroupDetails);
      children, after := children + [child], after';
      i := i + 1;
    }
    CopiedSoFarEnd(t.children, children, after, next + 1, keepGroupDetails);
    r := Node(next, row, false, children);
  }

  /** The loop invariant of `CopyTreeItem`: `children` are the copies of the first `i` trees, and
      copying the rest from `after` on completes the copy of all of them from `next` on. */
  predicate CopiedSoFar(ts: seq<Tree>, i: nat, children: seq<Tree>, after: nat, next: nat,
                        keepGroupDetails: bool)
  {
    i <= |ts| &&
    CopyForest(ts, next, keepGroupDetails) == children + CopyForest(ts[i..], after, keepGroupDetails) &&
    after + SizeOf(ts[i..]) == next + SizeOf(ts)
  }

  lemma CopiedSoFarStart(ts: seq<Tree>, next: nat, keepGroupDetails: bool)
    ensures CopiedSoFar(ts, 0, [], next, next, keepGroupDetails)
  {
    assert ts[0..] == ts;
    assert [] + CopyForest(ts, next, keepGroupDetails) == CopyForest(ts, next, keepGroupDetails);
  }

  lemma CopiedSoFarStep(ts: seq<Tree>, i: nat, children: seq<Tree>, after: nat, child: Tree, after': nat,
                        next: nat, keepGroupDetails: bool)
    requires i < |ts| && CopiedSoFar(ts, i, children, after, next, keepGroupDetails)
    requires child == CopyTree(ts[i], after, keepGroupDetails) && after' == after + Size(ts[i])
    ensures CopiedSoFar(ts, i + 1, children + [child], after', next, keepGroupDetails)
  {
    var rest := ts[i..];
    assert rest[0] == ts[i] && rest[1..] == ts[i + 1..];
    var later := CopyForest(ts[i + 1..], after', keepGroupDetails);
    assert CopyForest(rest, after, keepGroupDetails) == [child] + later;
    assert children + ([child] + later) == (children + [child]) + later;
    assert SizeOf(rest) == Size(ts[i]) + SizeOf(ts[i + 1..]);
  }

  lemma CopiedSoFarEnd(ts: seq<Tree>, children: seq<Tree>, after: nat, next: nat, keepGroupDetails: bool)
    requires CopiedSoFar(ts, |ts|, children, after, next, keepGroupDetails)
    ensures children == CopyForest(ts, next, keepGroupDetails) && after == next + SizeOf(ts)
  {
    assert ts[|ts|..] == [];
    assert children + [] == children;
  }
}
