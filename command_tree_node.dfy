/** src/CommandRunner/CommandTreeNode.java: a node of the older serialised command tree, either a
    command leaf (no children list at all) or a named group with a children list. */
module CommandTreeNodes {
  import opened Wrappers
  import opened Commands

  class CommandTreeNode {
    const name: string
    const command: Command?
    var children: Option<seq<CommandTreeNode>>

    /** A command node has no children list; a group node has one. */
    predicate Valid()
      reads this
    {
      command == null <==> children.Some?
    }

    constructor (name: string, command: Command?)
      ensures this.name == name && this.command == command
      ensures command == null ==> children == Some([])
      ensures command != null ==> children.None?
      ensures Valid()
    {
      this.name := name;
      this.command := command;
      if command == null {
        children := Some([]);
      } else {
        children := None;
      }
    }

    /** A command node, which is exactly a node without a children list. */
    function HasCommand(): (r: bool)
      reads this
      ensures r <==> command != null
      ensures Valid() ==> (r <==> children.None?)
    {
      command != null
    }

    /** The command's name and arguments for a command node, the node's own name otherwise. */
    function GetName(): (r: string)
      reads this, command
      ensures HasCommand() ==> r == command.nameAndArguments
      ensures !HasCommand() ==> r == name
    {
      if command != null then command.nameAndArguments else name
    }

    /** There is a children list and it is not empty, which a command node never has. */
    function HasChildren(): (r: bool)
      reads this
      ensures r <==> children.Some? && children.value != []
      ensures Valid() && HasCommand() ==> !r
    {
      children.Some? && children.value != []
    }

    /** `addChild(child)`: appended at the end; a command node has no list, and the call fails with
        a NullPointerException (`ok == false`, nothing changes). */
    method AddChild(child: CommandTreeNode) returns (ok: bool)
      modifies this`children
      ensures ok <==> old(children).Some?
      ensures ok ==> children == Some(old(children).value + [child])
      ensures !ok ==> children == old(children)
      ensures Valid() <==> old(Valid())
    {
      if children.None? {
        return false;
      }
      children := Some(children.value + [child]);
      ok := true;
    }
  }
}
