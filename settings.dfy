/** The settings held by src/CommandRunner/Settings.java: the saved command tree, the two flags and
    the save-on-exit choice, with what `save` writes and what `load` restores. The settings file is
    given as the JSON value it holds (`None` when there is no file); writing and parsing the text
    are not modelled. */
module SettingsFile {
  import opened Wrappers
  import opened Json
  import opened Trees
  import opened JsonTrees

  datatype SaveOnExit = Ask | Save | Forget

  /** `saveOnExit.toString()`. */
  function SaveOnExitName(s: SaveOnExit): (r: string)
    ensures |r| >= 3
  {
    match s
    case Ask => "ASK"
    case Save => "SAVE"
    case Forget => "FORGET"
  }

  /** `SaveOnExit.valueOf(name)`: `None` is its IllegalArgumentException. */
  function SaveOnExitValueOf(name: string): (r: Option<SaveOnExit>)
    ensures r.None? <==> name !in {"ASK", "SAVE", "FORGET"}
  {
    if name == "ASK" then Some(Ask)
    else if name == "SAVE" then Some(Save)
    else if name == "FORGET" then Some(Forget)
    else None
  }

  /** `valueOf` inverts `toString`, and accepts nothing but the three names. */
  lemma SaveOnExitNamesRoundTrip(s: SaveOnExit, name: string)
    ensures SaveOnExitValueOf(SaveOnExitName(s)) == Some(s)
    ensures SaveOnExitValueOf(name) == Some(s) ==> SaveOnExitName(s) == name
  {
  }

  const COMMANDS := "commands"
  const HALT_ON_ERROR := "haltOnError"
  const CONFIRM_NONEMPTY_DELETE := "confirmNonemptyDelete"
  const SAVE_ON_EXIT := "saveOnExit"

  datatype SettingsState = SettingsState(root: Option<Tree>, haltOnError: bool, confirmNonemptyDelete: bool,
                                         saveOnExit: SaveOnExit)

  /** The object `save` writes, from the settings it holds once `root` is stored. */
  function SettingsObject(root: Tree, haltOnError: bool, confirmNonemptyDelete: bool,
                          saveOnExit: SaveOnExit): (r: Json)
    ensures r.JObject? && r.fields.Keys == {COMMANDS, HALT_ON_ERROR, CONFIRM_NONEMPTY_DELETE, SAVE_ON_EXIT}
    ensures r.fields[COMMANDS] == JObject(NodeFields(root, false))
    ensures r.fields[HALT_ON_ERROR] == JBool(haltOnError)
    ensures r.fields[CONFIRM_NONEMPTY_DELETE] == JBool(confirmNonemptyDelete)
    ensures r.fields[SAVE_ON_EXIT] == JString(SaveOnExitName(saveOnExit))
  {
    JObject(map[COMMANDS := JObject(NodeFields(root, false)), HALT_ON_ERROR := JBool(haltOnError),
                CONFIRM_NONEMPTY_DELETE := JBool(confirmNonemptyDelete),
                SAVE_ON_EXIT := JString(SaveOnExitName(saveOnExit))])
  }

  /** How `load` ends: normally, with an IOException or JSONException caught (the assignments made
      before it stay), or with another exception leaving the method. */
  datatype LoadOutcome = Loaded | Caught | Escaped(exception: Thrown)

  /** `load(onlyCommands)` on the state `s`; the new tree's nodes are numbered from `next`. */
  function LoadSpec(s: SettingsState, onlyCommands: bool, file: Option<Json>, next: nat)
    : (SettingsState, LoadOutcome)
  {
    if file.None? then (s, Loaded)
    else if !file.value.JObject? then (s, Caught)
    else
      var settings := file.value.fields;
      match GetObject(settings, COMMANDS)
      case Threw(_) => (s, Caught)
      case Got(commands) =>
        match CreateNode(JObject(commands), next, false)
        case Threw(e) => (s, if e == JSONException then Caught else Escaped(e))
        case Got((tree, _)) =>
          var s1 := s.(root := Some(tree));
          if onlyCommands then (s1, Loaded)
          else
            match GetBoolean(settings, HALT_ON_ERROR)
            case Threw(_) => (s1, Caught)
            case Got(halt) =>
              var s2 := s1.(haltOnError := halt);
              match GetBoolean(settings, CONFIRM_NONEMPTY_DELETE)
              case Threw(_) => (s2, Caught)
              case Got(confirm) =>
                var s3 := s2.(confirmNonemptyDelete := confirm);
                match GetString(settings, SAVE_ON_EXIT)
                case Threw(_) => (s3, Caught)
                case Got(name) =>
                  match SaveOnExitValueOf(name)
                  case None => (s3, Escaped(IllegalArgumentException))
                  case Some(choice) => (s3.(saveOnExit := choice), Loaded)
  }

  /** `load(true)` only ever replaces the root: the flags and the save-on-exit choice stay. */
  lemma LoadOnlyCommandsKeepsFlags(s: SettingsState, file: Option<Json>, next: nat)
    ensures var (s', _) := LoadSpec(s, true, file, next);
            s'.haltOnError == s.haltOnError && s'.confirmNonemptyDelete == s.confirmNonemptyDelete &&
            s'.saveOnExit == s.saveOnExit
  {
  }

  /** Loading what `save` wrote restores the flags, the choice, and the tree's command strings,
      group names and child order. */
  lemma LoadWhatWasSaved(s: SettingsState, root: Tree, other: SettingsState, next: nat)
    ensures var file := SettingsObject(root, s.haltOnError, s.confirmNonemptyDelete, s.saveOnExit);
            var (s', outcome) := LoadSpec(other, false, Some(file), next);
            outcome == Loaded && s'.root.Some? && View(s'.root.value, false) == View(root, false) &&
            s'.haltOnError == s.haltOnError && s'.confirmNonemptyDelete == s.confirmNonemptyDelete &&
            s'.saveOnExit == s.saveOnExit
  {
    ReadWhatWasWritten(root, next, false);
  }

  class Settings {
    var root: Option<Tree>
    var haltOnError: bool
    var confirmNonemptyDelete: bool
    var saveOnExit: SaveOnExit

    function State(): SettingsState
      reads this
    {
      SettingsState(root, haltOnError, confirmNonemptyDelete, saveOnExit)
    }

    /** No tree; halt on error, confirm deleting non-empty groups, ask on exit. */
    constructor ()
      ensures State() == SettingsState(None, true, true, Ask)
    {
      root := None;
      haltOnError := true;
      confirmNonemptyDelete := true;
      saveOnExit := Ask;
    }

    /** `save(root)`: stores the root, then builds the settings object; `written` is what goes to
        the file, `None` when there is no root (the NullPointerException is caught). */
    method Save(newRoot: Option<Tree>) returns (written: Option<Json>)
      modifies this`root
      ensures root == newRoot
      ensures newRoot.None? ==> written.None?
      ensures newRoot.Some? ==>
                written == Some(SettingsObject(newRoot.value, haltOnError, confirmNonemptyDelete, saveOnExit))
    {
      root := newRoot;
      if newRoot.None? {
        return None;
      }
      var commandsObject := new JsonObject();
      AppendNodeHierarchyToJson(newRoot.value, commandsObject, false);
      assert commandsObject.fields == NodeFields(newRoot.value, false);
      var settingsObject := new JsonObject();
      settingsObject.Put(COMMANDS, JObject(commandsObject.fields));
      settingsObject.Put(HALT_ON_ERROR, JBool(haltOnError));
      settingsObject.Put(CONFIRM_NONEMPTY_DELETE, JBool(confirmNonemptyDelete));
      settingsObject.Put(SAVE_ON_EXIT, JString(SaveOnExitName(saveOnExit)));
      assert settingsObject.fields == SettingsObject(newRoot.value, haltOnError, confirmNonemptyDelete, saveOnExit).fields;
      written := Some(JObject(settingsObject.fields));
    }

    /** `saveSettingsButKeepCommands()`: saves the root already held. */
    method SaveSettingsButKeepCommands() returns (written: Option<Json>)
      modifies this`root
      ensures root == old(root)
      ensures root.None? ==> written.None?
      ensures root.Some? ==>
                written == Some(SettingsObject(root.value, haltOnError, confirmNonemptyDelete, saveOnExit))
    {
      written := Save(root);
    }

    method Load(onlyCommands: bool, file: Option<Json>, next: nat) returns (outcome: LoadOutcome)
      modifies this
      ensures (State(), outcome) == LoadSpec(old(State()), onlyCommands, file, next)
    {
      if file.None? {
        return Loaded;
      }
      if !file.value.JObject? {
        return Caught;
      }
      var settings := file.value.fields;
      var commands := GetObject(settings, COMMANDS);
      if commands.Threw? {
        return Caught;
      }
      var node := BuildNode(JObject(commands.value), next, false);
      if node.Threw? {
        return if node.exception == JSONException then Caught else Escaped(node.exception);
      }
      root := Some(node.value.0);
      if onlyCommands {
        return Loaded;
      }
      var halt := GetBoolean(settings, HALT_ON_ERROR);
      if halt.Threw? {
        return Caught;
      }
      haltOnError := halt.value;
      var confirm := GetBoolean(settings, CONFIRM_NONEMPTY_DELETE);
      if confirm.Threw? {
        return Caught;
      }
      confirmNonemptyDelete := confirm.value;
      var name := GetString(settings, SAVE_ON_EXIT);
      if name.Threw? {
        return Caught;
      }
      var choice := SaveOnExitValueOf(name.value);
      if choice.None? {
        return Escaped(IllegalArgumentException);
      }
      saveOnExit := choice.value;
      outcome := Loaded;
    }

    method SetHaltOnError(halt: bool)
      modifies this`haltOnError
      ensures haltOnError == halt
    {
      haltOnError := halt;
    }

    method SetConfirmNonemptyDelete(confirm: bool)
      modifies this`confirmNonemptyDelete
      ensures confirmNonemptyDelete == confirm
    {
      confirmNonemptyDelete := confirm;
    }

    method SetSaveOnExit(choice: SaveOnExit)
      modifies this`saveOnExit
      ensures saveOnExit == choice
    {
      saveOnExit := choice;
    }
  }
}
