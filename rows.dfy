/** The command rows of the tables (src/CommandRunner/gui/CommandTableRow.java,
    src/CommandRunner/gui/CommandTableCommandRow.java and the two commandtable/CommandTableCommandRow.java
    files): a row shows its command's name, directory and comment, plus a status text, and its
    setters write the row and the command together. The status text and the members that read or
    write it model the `CommandRunner` row classes only; the se.itello row is the same class without
    a status. */
module Rows {
  import opened Wrappers
  import opened Status
  import opened Commands

  class CommandTableCommandRow {
    const command: Command
    var nameAndArguments: string
    var directory: string
    var status: string
    var comment: string

    /** The row shows what its command holds. */
    predicate Synchronised()
      reads this, command
    {
      nameAndArguments == command.nameAndArguments && directory == command.directory &&
      comment == command.comment
    }

    /** The command's three strings, status "idle". */
    constructor (command: Command)
      ensures this.command == command
      ensures nameAndArguments == command.nameAndArguments && directory == command.directory
      ensures comment == command.comment && status == "idle"
      ensures Synchronised()
    {
      this.command := command;
      nameAndArguments := command.nameAndArguments;
      directory := command.directory;
      status := StringValue(Idle);
      comment := command.comment;
    }

    method GetCommand() returns (c: Command)
      ensures c == command
    {
      c := command;
    }

    method SetCommandNameAndArguments(value: string)
      modifies this`nameAndArguments, command`nameAndArguments
      ensures nameAndArguments == value && command.nameAndArguments == value
      ensures old(Synchronised()) ==> Synchronised()
    {
      nameAndArguments := value;
      command.SetCommandNameAndArguments(value);
    }

    method SetCommandDirectory(value: string)
      modifies this`directory, command`directory
      ensures directory == value && command.directory == value
      ensures old(Synchronised()) ==> Synchronised()
    {
      directory := value;
      command.SetCommandDirectory(value);
    }

    method SetCommandComment(value: string)
      modifies this`comment, command`comment
      ensures comment == value && command.comment == value
      ensures old(Synchronised()) ==> Synchronised()
    {
      comment := value;
      command.SetCommandComment(value);
    }

    /** Only the row's status text; the command keeps its status. */
    method SetCommandStatus(value: string)
      modifies this`status
      ensures status == value
    {
      status := value;
    }

    /** The row shows its command's status; a command without a status fails with a
        NullPointerException (`ok == false`, nothing changes). */
    method UpdateCommandStatus() returns (ok: bool)
      modifies this`status
      ensures ok <==> command.status.Some?
      ensures ok ==> status == StringValue(command.status.value)
      ensures !ok ==> status == old(status)
    {
      if command.status.None? {
        return false;
      }
      SetCommandStatus(StringValue(command.status.value));
      ok := true;
    }
  }
}
