/** The command table as a value: a tree of rows. A `TreeItem` of the source is a `Tree` node, and
    its object identity is the node's `id`; a lookup by identity is a lookup of the first node with
    that id in pre-order, and the table operations keep ids unique. */
module Trees {
  import opened Wrappers
  import opened Status

  /** The fields of a `Command` that the table shows, copies and runs. */
  datatype CommandData = CommandData(nameAndArguments: string, directory: string, comment: string,
                                     parentDirectory: string, status: Option<CommandStatus>)

  /** A table row: a command row shows the command's own fields (the row setters keep the two
      equal) and its own status text; a group row holds its fields itself. */
  datatype Row =
    | CommandRow(command: CommandData, status: string)
    | GroupRow(name: string, directory: string, comment: string, status: string)

  function Name(r: Row): string
  {
    if r.CommandRow? then r.command.nameAndArguments else r.name
  }

  function Directory(r: Row): string
  {
    if r.CommandRow? then r.command.directory else r.directory
  }

  function Comment(r: Row): string
  {
    if r.CommandRow? then r.command.comment else r.comment
  }

  datatype Tree = Node(id: nat, row: Row, expanded: bool, children: seq<Tree>)

  /** All nodes in pre-order. */
  function Nodes(t: Tree): (r: seq<Tree>)
    ensures |r| >= 1 && r[0] == t
    decreases t, 1
  {
    [t] + NodesOf(t.children)
  }

  function NodesOf(ts: seq<Tree>): seq<Tree>
    decreases ts, 0
  {
    if ts == [] then [] else Nodes(ts[0]) + NodesOf(ts[1..])
  }

  lemma {:induction false} NodesOfAppend(a: seq<Tree>, b: seq<Tree>)
    ensures NodesOf(a + b) == NodesOf(a) + NodesOf(b)
    decreases |a|
  {
    if a == [] {
      assert a + b == b;
    } else {
      assert (a + b)[1..] == a[1..] + b;
      NodesOfAppend(a[1..], b);
    }
  }

  lemma NodesOfFirst(ts: seq<Tree>)
    requires ts != []
    ensures NodesOf(ts) == [ts[0]] + NodesOf(ts[0].children) + NodesOf(ts[1..])
  {
  }

  function Ids(ts: seq<Tree>): (r: seq<nat>)
    ensures |r| == |ts| && forall i :: 0 <= i < |ts| ==> r[i] == ts[i].id
  {
    if ts == [] then [] else [ts[0].id] + Ids(ts[1..])
  }

  predicate Distinct(xs: seq<nat>)
  {
    forall i, j :: 0 <= i < j < |xs| ==> xs[i] != xs[j]
  }

  /** No two nodes of the forest share an id. */
  predicate UniqueIds(ts: seq<Tree>)
  {
    Distinct(Ids(NodesOf(ts)))
  }

  predicate HasId(ts: seq<Tree>, id: nat)
  {
    id in Ids(NodesOf(ts))
  }

  /** `children.indexOf(item)`: the position of the first child with that id, or -1. */
  function IndexOf(ts: seq<Tree>, id: nat): (r: int)
    ensures -1 <= r < |ts|
    ensures r >= 0 ==> ts[r].id == id
    ensures forall j :: 0 <= j < |ts| && (r == -1 || j < r) ==> ts[j].id != id
  {
    if ts == [] then -1
    else if ts[0].id == id then 0
    else
      var k := IndexOf(ts[1..], id);
      if k == -1 then -1 else k + 1
  }

  /** The first node with that id, in pre-order. */
  function Find(ts: seq<Tree>, id: nat): (r: Option<Tree>)
    ensures r.Some? ==> r.value.id == id && r.value in NodesOf(ts)
    ensures r.None? <==> !HasId(ts, id)
    decreases ts
  {
    if ts == [] then None
    else if ts[0].id == id then
      assert Nodes(ts[0])[0] == ts[0];
      Some(ts[0])
    else
      var inside := Find(ts[0].children, id);
      NodesOfAppend([ts[0]], ts[1..]);
      assert [ts[0]] + ts[1..] == ts;
      assert NodesOf([ts[0]]) == Nodes(ts[0]) by {
        assert [ts[0]][1..] == [];
      }
      IdsAppend(Nodes(ts[0]), NodesOf(ts[1..]));
      IdsAppend([ts[0]], NodesOf(ts[0].children));
      if inside.Some? then inside else Find(ts[1..], id)
  }

  lemma IdsAppend(a: seq<Tree>, b: seq<Tree>)
    ensures Ids(a + b) == Ids(a) + Ids(b)
  {
    var l := Ids(a + b);
    var r := Ids(a) + Ids(b);
    assert |l| == |r|;
    forall i | 0 <= i < |l| ensures l[i] == r[i] {
      if i < |a| {
        assert (a + b)[i] == a[i];
      } else {
        assert (a + b)[i] == b[i - |a|];
      }
    }
  }
}
