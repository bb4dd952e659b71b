/** The command table's tree in JSON: `appendNodeHierarchyToJSON` (src/CommandRunner/JsonConverter.java,
    and the shorter format of src/CommandRunner/Settings.java), and `createNode`
    (src/main/java/se/itello/commandrunner/JSONFileReader.java for the full format,
    src/CommandRunner/JSONFileReader.java and src/CommandRunner/Settings.java for the short one).
    In the full format (`groupDetails`) a group also carries its directory, comment and expansion. */
module JsonTrees {
  import opened Wrappers
  import opened Status
  import opened Json
  import opened Trees

  const COMMAND_AND_ARGUMENTS := "commandsAndArguments"
  const COMMAND_COMMENT := "commandComment"
  const NAME := "name"
  const CHILDREN := "children"
  const COMMAND := "command"
  const DIRECTORY := "directory"
  const IS_EXPANDED := "isExpanded"

  // ---------------------------------------------------------------------------------------------
  // Writing

  /** The entries `appendNodeHierarchyToJSON` puts for a node. A command row becomes a "command"
      object with its three strings (its children are not written); a group row its name and its
      children, plus comment, directory and expansion in the full format. */
  function NodeFields(t: Tree, groupDetails: bool): map<string, Json>
    decreases t, 1
  {
    match t.row
    case CommandRow(c, _) => map[COMMAND := CommandObject(c)]
    case GroupRow(name, directory, comment, _) =>
      var children := JArray(ChildrenJson(t.children, groupDetails));
      if groupDetails then
        map[NAME := JString(name), COMMAND_COMMENT := JString(comment), DIRECTORY := JString(directory),
            IS_EXPANDED := JBool(t.expanded), CHILDREN := children]
      else map[NAME := JString(name), CHILDREN := children]
  }

  function CommandObject(c: CommandData): Json
  {
    JObject(map[DIRECTORY := JString(c.directory), COMMAND_AND_ARGUMENTS := JString(c.nameAndArguments),
                COMMAND_COMMENT := JString(c.comment)])
  }

  /** One object per child, in child order. */
  function ChildrenJson(ts: seq<Tree>, groupDetails: bool): (r: seq<Json>)
    ensures |r| == |ts|
    decreases ts, 0
  {
    if ts == [] then [] else [JObject(NodeFields(ts[0], groupDetails))] + ChildrenJson(ts[1..], groupDetails)
  }

  lemma {:induction false} ChildrenJsonAt(ts: seq<Tree>, groupDetails: bool, i: nat)
    requires i < |ts|
    ensures ChildrenJson(ts, groupDetails)[i] == JObject(NodeFields(ts[i], groupDetails))
    decreases |ts|
  {
    if i > 0 {
      ChildrenJsonAt(ts[1..], groupDetails, i - 1);
    }
  }

  /** What a node's object holds: a command row exactly the "command" entry with its three
      strings, a group row its name, one child object per child in order, and in the full format
      its comment, directory and expansion. */
  lemma NodeFieldsContents(t: Tree, groupDetails: bool)
    ensures var f := NodeFields(t, groupDetails);
            (t.row.CommandRow? ==>
               f.Keys == {COMMAND} && f[COMMAND].JObject? &&
               f[COMMAND].fields.Keys == {DIRECTORY, COMMAND_AND_ARGUMENTS, COMMAND_COMMENT} &&
               f[COMMAND].fields[DIRECTORY] == JString(t.row.command.directory) &&
               f[COMMAND].fields[COMMAND_AND_ARGUMENTS] == JString(t.row.command.nameAndArguments) &&
               f[COMMAND].fields[COMMAND_COMMENT] == JString(t.row.command.comment)) &&
            (t.row.GroupRow? ==>
               f.Keys == (if groupDetails then {NAME, COMMAND_COMMENT, DIRECTORY, IS_EXPANDED, CHILDREN}
                          else {NAME, CHILDREN}) &&
               f[NAME] == JString(t.row.name) &&
               f[CHILDREN].JArray? && |f[CHILDREN].items| == |t.children| &&
               (forall i :: 0 <= i < |t.children| ==>
                  f[CHILDREN].items[i] == JObject(NodeFields(t.children[i], groupDetails))) &&
               (groupDetails ==>
                  f[COMMAND_COMMENT] == JString(t.row.comment) && f[DIRECTORY] == JString(t.row.directory) &&
                  f[IS_EXPANDED] == JBool(t.expanded)))
  {
    if t.row.GroupRow? {
      forall i | 0 <= i < |t.children| ensures
        ChildrenJson(t.children, groupDetails)[i] == JObject(NodeFields(t.children[i], groupDetails)) {
        ChildrenJsonAt(t.children, groupDetails, i);
      }
    }
  }

  /** `appendNodeHierarchyToJSON(node, object)`: the entries are put into the given object, each
      child written into a new object of its own and pushed onto the children items. */
  method AppendNodeHierarchyToJson(node: Tree, obj: JsonObject, groupDetails: bool)
    modifies obj
    ensures obj.fields == old(obj.fields) + NodeFields(node, groupDetails)
    decreases node, 1
  {
    match node.row {
      case CommandRow(c, _) =>
        obj.Put(COMMAND, CommandObject(c));
      case GroupRow(name, directory, comment, _) =>
        obj.Put(NAME, JString(name));
        if groupDetails {
          obj.Put(COMMAND_COMMENT, JString(comment));
          obj.Put(DIRECTORY, JString(directory));
          obj.Put(IS_EXPANDED, JBool(node.expanded));
        }
        var items := ChildItems(node.children, groupDetails);
        obj.Put(CHILDREN, JArray(items));
        GroupPuts(old(obj.fields), node, groupDetails);
    }
  }

  /** The `forEach` over a group's children: each child written into a new object of its own and
      pushed onto the items, in child order. */
  method ChildItems(children: seq<Tree>, groupDetails: bool) returns (items: seq<Json>)
    ensures items == ChildrenJson(children, groupDetails)
    decreases children, 0
  {
    items := [];
    var i := 0;
    while i < |children|
      invariant 0 <= i <= |children| && |items| == i
      invariant forall j :: 0 <= j < i ==> items[j] == JObject(NodeFields(children[j], groupDetails))
    {
      var childJson := new JsonObject();
      AppendNodeHierarchyToJson(children[i], childJson, groupDetails);
      items := items + [JObject(childJson.fields)];
      i := i + 1;
    }
    forall j | 0 <= j < |children| ensures items[j] == ChildrenJson(children, groupDetails)[j] {
      ChildrenJsonAt(children, groupDetails, j);
    }
  }

  /** The puts for a group row, in the source's order, leave the object with the group's entries. */
  lemma GroupPuts(m: map<string, Json>, node: Tree, groupDetails: bool)
    requires node.row.GroupRow?
    ensures var children := JArray(ChildrenJson(node.children, groupDetails));
            var named := m[NAME := JString(node.row.name)];
            m + NodeFields(node, groupDetails)
            == if groupDetails
               then named[COMMAND_COMMENT := JString(node.row.comment)][DIRECTORY := JString(node.row.directory)]
                         [IS_EXPANDED := JBool(node.expanded)][CHILDREN := children]
               else named[CHILDREN := children]
  {
  }

  /** `convertToJSON(root)`: the hierarchy written into a fresh object. */
  method ConvertToJson(root: Tree) returns (r: Json)
    ensures r == JObject(NodeFields(root, true))
  {
    var obj := new JsonObject();
    AppendNodeHierarchyToJson(root, obj, true);
    r := JObject(obj.fields);
  }

  /** `convertToJSON(items)`: one object per item, in order. */
  method ConvertItemsToJson(items: seq<Tree>) returns (r: seq<Json>)
    ensures |r| == |items|
    ensures forall i :: 0 <= i < |items| ==> r[i] == JObject(NodeFields(items[i], true))
  {
    r := [];
    var i := 0;
    while i < |items|
      invariant 0 <= i <= |items| && |r| == i
      invariant forall j :: 0 <= j < i ==> r[j] == JObject(NodeFields(items[j], true))
    {
      var obj := new JsonObject();
      AppendNodeHierarchyToJson(items[i], obj, true);
      r := r + [JObject(obj.fields)];
      i := i + 1;
    }
  }

  // ---------------------------------------------------------------------------------------------
  // Reading

  /** The row `createNode` builds: from a "command" object a command row around a new command
      (status not yet set, no inherited directory) showing "idle"; otherwise a group. In the full
      format the group's directory and comment default to "" when absent; in the short one the
      group has only its name. The fields are read in the source's order, so the first failing
      access decides the exception. */
  function ReadRow(obj: map<string, Json>, groupDetails: bool): (r: Got<Row>)
  {
    if COMMAND in obj then
      if !obj[COMMAND].JObject? then Threw(ClassCastException)
      else
        var command := obj[COMMAND].fields;
        match GetCastString(command, DIRECTORY)
        case Threw(e) => Threw(e)
        case Got(directory) =>
          match GetCastString(command, COMMAND_COMMENT)
          case Threw(e) => Threw(e)
          case Got(comment) =>
            match GetCastString(command, COMMAND_AND_ARGUMENTS)
            case Threw(e) => Threw(e)
            case Got(nameAndArguments) =>
              Got(CommandRow(CommandData(nameAndArguments, directory, comment, "", None), StringValue(Idle)))
    else if groupDetails then
      var directory := if DIRECTORY in obj then GetString(obj, DIRECTORY) else Got("");
      var comment := if COMMAND_COMMENT in obj then GetString(obj, COMMAND_COMMENT) else Got("");
      match directory
      case Threw(e) => Threw(e)
      case Got(d) =>
        match comment
        case Threw(e) => Threw(e)
        case Got(c) =>
          match GetString(obj, NAME)
          case Threw(e) => Threw(e)
          case Got(name) => Got(GroupRow(name, d, c, ""))
    else
      match GetCastString(obj, NAME)
      case Threw(e) => Threw(e)
      case Got(name) => Got(GroupRow(name, "", "", ""))
  }

  /** `object.has(IS_EXPANDED) && object.getBoolean(IS_EXPANDED)` in the full format; the short
      format leaves a new TreeItem collapsed. */
  function ReadExpanded(obj: map<string, Json>, groupDetails: bool): (r: Got<bool>)
    ensures !groupDetails ==> r == Got(false)
    ensures groupDetails && IS_EXPANDED !in obj ==> r == Got(false)
    ensures groupDetails && IS_EXPANDED in obj ==> r == GetBoolean(obj, IS_EXPANDED)
  {
    if groupDetails && IS_EXPANDED in obj then GetBoolean(obj, IS_EXPANDED) else Got(false)
  }

  /** `createNode(object)`: the node gets id `next`, its children the following ids in pre-order;
      the second component is the next unused id. */
  function CreateNode(v: Json, next: nat, groupDetails: bool): (r: Got<(Tree, nat)>)
    requires v.JObject?
    ensures r.Got? ==> r.value.0.id == next && r.value.1 > next
    ensures r.Got? ==> (r.value.0.row.CommandRow? <==> COMMAND in v.fields)
    ensures r.Got? ==> |r.value.0.children| ==
                       if CHILDREN in v.fields && v.fields[CHILDREN].JArray? then |v.fields[CHILDREN].items| else 0
    ensures r.Got? ==> ReadExpanded(v.fields, groupDetails) == Got(r.value.0.expanded)
    ensures CHILDREN in v.fields && !v.fields[CHILDREN].JArray? ==> r == Threw(ClassCastException)
    decreases v, 1
  {
    var obj := v.fields;
    if CHILDREN in obj && !obj[CHILDREN].JArray? then Threw(ClassCastException)
    else if COMMAND in obj && !obj[COMMAND].JObject? then Threw(ClassCastException)
    else
      match ReadRow(obj, groupDetails)
      case Threw(e) => Threw(e)
      case Got(row) =>
        assert row.CommandRow? <==> COMMAND in obj;
        match ReadExpanded(obj, groupDetails)
        case Threw(e) => Threw(e)
        case Got(expanded) =>
          if CHILDREN in obj then
            match CreateChildren(obj[CHILDREN].items, next + 1, groupDetails)
            case Threw(e) => Threw(e)
            case Got((children, after)) => Got((Node(next, row, expanded, children), after))
          else Got((Node(next, row, expanded, []), next + 1))
  }

  /** The `for` loop over a children items, and `createNodes(items)`: `getJSONObject(i)` then
      `createNode`, element by element. */
  function CreateChildren(items: seq<Json>, next: nat, groupDetails: bool): (r: Got<(seq<Tree>, nat)>)
    ensures r.Got? ==> |r.value.0| == |items| && r.value.1 >= next
    decreases items, 0
  {
    if items == [] then Got(([], next))
    else if !items[0].JObject? then Threw(JSONException)
    else
      match CreateNode(items[0], next, groupDetails)
      case Threw(e) => Threw(e)
      case Got((t, mid)) =>
        match CreateChildren(items[1..], mid, groupDetails)
        case Threw(e) => Threw(e)
        case Got((ts, after)) => Got(([t] + ts, after))
  }

  /** An object with a "command" entry whose three fields are strings yields a command row built
      from them, whatever else that entry holds. */
  lemma ReadCommandRow(obj: map<string, Json>, groupDetails: bool)
    requires COMMAND in obj && obj[COMMAND].JObject?
    requires var c := obj[COMMAND].fields;
             DIRECTORY in c && c[DIRECTORY].JString? && COMMAND_COMMENT in c && c[COMMAND_COMMENT].JString? &&
             COMMAND_AND_ARGUMENTS in c && c[COMMAND_AND_ARGUMENTS].JString?
    ensures var c := obj[COMMAND].fields;
            ReadRow(obj, groupDetails)
            == Got(CommandRow(CommandData(c[COMMAND_AND_ARGUMENTS].s, c[DIRECTORY].s, c[COMMAND_COMMENT].s, "", None),
                              "idle"))
  {
  }

  /** Without "command", the full format builds a group from its name, with directory and comment
      "" when absent; the short format from its name alone. */
  lemma ReadGroupRow(obj: map<string, Json>, groupDetails: bool)
    requires COMMAND !in obj && NAME in obj && obj[NAME].JString?
    requires DIRECTORY in obj ==> obj[DIRECTORY].JString?
    requires COMMAND_COMMENT in obj ==> obj[COMMAND_COMMENT].JString?
    ensures groupDetails ==>
              ReadRow(obj, groupDetails)
              == Got(GroupRow(obj[NAME].s, if DIRECTORY in obj then obj[DIRECTORY].s else "",
                              if COMMAND_COMMENT in obj then obj[COMMAND_COMMENT].s else "", ""))
    ensures !groupDetails ==> ReadRow(obj, groupDetails) == Got(GroupRow(obj[NAME].s, "", "", ""))
  {
  }

  /** The children come out in items order: the i-th child is what `createNode` makes of the i-th
      element, numbered after the ones before it. */
  lemma {:induction false} CreateChildrenInOrder(items: seq<Json>, next: nat, groupDetails: bool)
    requires CreateChildren(items, next, groupDetails).Got?
    ensures items != [] ==>
              items[0].JObject? &&
              var first := CreateNode(items[0], next, groupDetails);
              first.Got? &&
              CreateChildren(items[1..], first.value.1, groupDetails).Got? &&
              CreateChildren(items, next, groupDetails).value.0
              == [first.value.0] + CreateChildren(items[1..], first.value.1, groupDetails).value.0
  {
  }

  // ---------------------------------------------------------------------------------------------
  // The round trip

  /** What the format keeps of a node: a command's three strings; a group's name and children, and
      in the full format also its directory, comment and expansion. */
  datatype Saved =
    | SavedCommand(nameAndArguments: string, directory: string, comment: string)
    | SavedGroup(name: string, directory: string, comment: string, expanded: bool, children: seq<Saved>)

  function View(t: Tree, groupDetails: bool): Saved
    decreases t, 1
  {
    match t.row
    case CommandRow(c, _) => SavedCommand(c.nameAndArguments, c.directory, c.comment)
    case GroupRow(name, directory, comment, _) =>
      if groupDetails then SavedGroup(name, directory, comment, t.expanded, Views(t.children, groupDetails))
      else SavedGroup(name, "", "", false, Views(t.children, groupDetails))
  }

  function Views(ts: seq<Tree>, groupDetails: bool): (r: seq<Saved>)
    ensures |r| == |ts|
    decreases ts, 0
  {
    if ts == [] then [] else [View(ts[0], groupDetails)] + Views(ts[1..], groupDetails)
  }

  /** Reading what was written restores every command's strings and every group's name and child
      order, and in the full format the groups' directory, comment and expansion. */
  lemma {:induction false} ReadWhatWasWritten(t: Tree, next: nat, groupDetails: bool)
    ensures var r := CreateNode(JObject(NodeFields(t, groupDetails)), next, groupDetails);
            r.Got? && View(r.value.0, groupDetails) == View(t, groupDetails)
    decreases t, 1
  {
    if t.row.CommandRow? {
      WrittenCommandReadsBack(t, next, groupDetails);
    } else {
      ReadAllWritten(t.children, next + 1, groupDetails);
      WrittenGroupReadsBack(t, next, groupDetails);
    }
  }

  ghost predicate ReadsBack(t: Tree, next: nat, groupDetails: bool)
  {
    var r := CreateNode(JObject(NodeFields(t, groupDetails)), next, groupDetails);
    r.Got? && View(r.value.0, groupDetails) == View(t, groupDetails)
  }

  lemma WrittenCommandReadsBack(t: Tree, next: nat, groupDetails: bool)
    requires t.row.CommandRow?
    ensures ReadsBack(t, next, groupDetails)
  {
    var obj := NodeFields(t, groupDetails);
    var c := t.row.command;
    assert obj == map[COMMAND := CommandObject(c)];
    assert CHILDREN !in obj;
    ReadCommandRow(obj, groupDetails);
  }

  lemma WrittenGroupReadsBack(t: Tree, next: nat, groupDetails: bool)
    requires t.row.GroupRow?
    requires var r := CreateChildren(ChildrenJson(t.children, groupDetails), next + 1, groupDetails);
             r.Got? && Views(r.value.0, groupDetails) == Views(t.children, groupDetails)
    ensures ReadsBack(t, next, groupDetails)
  {
    var items := ChildrenJson(t.children, groupDetails);
    var kids := CreateChildren(items, next + 1, groupDetails);
    if groupDetails {
      FullGroupReadsBack(t, next, items, kids.value.0, kids.value.1);
    } else {
      ShortGroupReadsBack(t, next, items, kids.value.0, kids.value.1);
    }
  }

  lemma FullGroupReadsBack(t: Tree, next: nat, items: seq<Json>, children: seq<Tree>, after: nat)
    requires t.row.GroupRow? && items == ChildrenJson(t.children, true)
    requires CreateChildren(items, next + 1, true) == Got((children, after))
    requires Views(children, true) == Views(t.children, true)
    ensures ReadsBack(t, next, true)
  {
    var obj := NodeFields(t, true);
    var row := GroupRow(t.row.name, t.row.directory, t.row.comment, "");
    assert obj == map[NAME := JString(t.row.name), COMMAND_COMMENT := JString(t.row.comment),
                      DIRECTORY := JString(t.row.directory), IS_EXPANDED := JBool(t.expanded),
                      CHILDREN := JArray(items)];
    assert ReadRow(obj, true) == Got(row) by {
      ReadGroupRow(obj, true);
    }
    var node := Node(next, row, t.expanded, children);
    assert CreateNode(JObject(obj), next, true) == Got((node, after));
  }

  lemma ShortGroupReadsBack(t: Tree, next: nat, items: seq<Json>, children: seq<Tree>, after: nat)
    requires t.row.GroupRow? && items == ChildrenJson(t.children, false)
    requires CreateChildren(items, next + 1, false) == Got((children, after))
    requires Views(children, false) == Views(t.children, false)
    ensures ReadsBack(t, next, false)
  {
    var obj := NodeFields(t, false);
    var row := GroupRow(t.row.name, "", "", "");
    assert obj == map[NAME := JString(t.row.name), CHILDREN := JArray(items)];
    assert ReadRow(obj, false) == Got(row) by {
      ReadGroupRow(obj, false);
    }
    var node := Node(next, row, false, children);
    assert CreateNode(JObject(obj), next, false) == Got((node, after));
  }

  lemma {:induction false} ReadAllWritten(ts: seq<Tree>, next: nat, groupDetails: bool)
    ensures var r := CreateChildren(ChildrenJson(ts, groupDetails), next, groupDetails);
            r.Got? && Views(r.value.0, groupDetails) == Views(ts, groupDetails)
    decreases ts, 0
  {
    if ts != [] {
      var items := ChildrenJson(ts, groupDetails);
      assert items[0] == JObject(NodeFields(ts[0], groupDetails));
      assert items[1..] == ChildrenJson(ts[1..], groupDetails);
      ReadWhatWasWritten(ts[0], next, groupDetails);
      var mid := CreateNode(items[0], next, groupDetails).value.1;
      ReadAllWritten(ts[1..], mid, groupDetails);
      var r := CreateChildren(items, next, groupDetails);
      assert r.value.0[1..] == CreateChildren(items[1..], mid, groupDetails).value.0;
    }
  }

  // ---------------------------------------------------------------------------------------------
  // The reading methods

  /** `createNode` as the source runs it: the row, then a `for` loop adding each child node. */
  method BuildNode(v: Json, next: nat, groupDetails: bool) returns (r: Got<(Tree, nat)>)
    requires v.JObject?
    ensures r == CreateNode(v, next, groupDetails)
    decreases v, 1
  {
    var obj := v.fields;
    if CHILDREN in obj && !obj[CHILDREN].JArray? {
      return Threw(ClassCastException);
    }
    if COMMAND in obj && !obj[COMMAND].JObject? {
      return Threw(ClassCastException);
    }
    var row := ReadRow(obj, groupDetails);
    if row.Threw? {
      return Threw(row.exception);
    }
    var expanded := ReadExpanded(obj, groupDetails);
    if expanded.Threw? {
      return Threw(expanded.exception);
    }
    if CHILDREN !in obj {
      return Got((Node(next, row.value, expanded.value, []), next + 1));
    }
    var children := BuildChildren(obj[CHILDREN].items, next + 1, groupDetails);
    if children.Threw? {
      return Threw(children.exception);
    }
    r := Got((Node(next, row.value, expanded.value, children.value.0), children.value.1));
  }

  /** The loop over an items of node objects; it is also `createNodes(items)` of the full-format
      reader. */
  method BuildChildren(items: seq<Json>, next: nat, groupDetails: bool) returns (r: Got<(seq<Tree>, nat)>)
    ensures r == CreateChildren(items, next, groupDetails)
    decreases items, 0
  {
    var nodes: seq<Tree> := [];
    var after := next;
    var i := 0;
    assert items[0..] == items;
    PrependNothing(CreateChildren(items, next, groupDetails));
    while i < |items|
      invariant 0 <= i <= |items|
      invariant CreateChildren(items, next, groupDetails) == PrependNodes(nodes, CreateChildren(items[i..], after, groupDetails))
    {
      assert items[i..][0] == items[i] && items[i..][1..] == items[i + 1..];
      if !items[i].JObject? {
        return Threw(JSONException);
      }
      var node := BuildNode(items[i], after, groupDetails);
      if node.Threw? {
        return Threw(node.exception);
      }
      PrependNodesAssoc(nodes, node.value.0, CreateChildren(items[i + 1..], node.value.1, groupDetails));
      nodes := nodes + [node.value.0];
      after := node.value.1;
      i := i + 1;
    }
    assert items[i..] == [] && nodes + [] == nodes;
    r := Got((nodes, after));
  }

  /** The nodes already built, in front of what the rest of the loop yields. */
  function PrependNodes(nodes: seq<Tree>, rest: Got<(seq<Tree>, nat)>): Got<(seq<Tree>, nat)>
  {
    match rest
    case Threw(e) => Threw(e)
    case Got((ts, after)) => Got((nodes + ts, after))
  }

  lemma PrependNothing(rest: Got<(seq<Tree>, nat)>)
    ensures PrependNodes([], rest) == rest
  {
    if rest.Got? {
      assert [] + rest.value.0 == rest.value.0;
    }
  }

  lemma PrependNodesAssoc(nodes: seq<Tree>, t: Tree, rest: Got<(seq<Tree>, nat)>)
    ensures PrependNodes(nodes, PrependNodes([t], rest)) == PrependNodes(nodes + [t], rest)
  {
    if rest.Got? {
      assert nodes + ([t] + rest.value.0) == (nodes + [t]) + rest.value.0;
    }
  }

  /** `createNodes(object)` of the short-format reader: the children of the node built from
      `object`. */
  method CreateNodesOf(obj: map<string, Json>, next: nat) returns (r: Got<seq<Tree>>)
    ensures r.Got? <==> CreateNode(JObject(obj), next, false).Got?
    ensures r.Got? ==> r.value == CreateNode(JObject(obj), next, false).value.0.children
  {
    var node := BuildNode(JObject(obj), next, false);
    if node.Threw? {
      return Threw(node.exception);
    }
    r := Got(node.value.0.children);
  }
}
