# Command Runner, modelled in Dafny

Command Runner is a desktop tool for keeping a tree of shell commands. Each command has a name
and arguments, a working directory and a comment. Commands are grouped into folders. The tool runs
the selected commands one at a time through a queue and shows their status and output.

This project models the core of that program and proves properties of the model:

- **The command queue.** This is a three-state machine (Stopped, Running, Stopping). It gives its
  pending commands to a worker thread one at a time, in order.
- **The life of one command execution.** The model covers the argument vector, the working
  directory, the order of the listener notifications, and how the status is classified.
- **The status vocabulary, with its priority sort.** The sort puts RUNNING before FAIL before IDLE
  before OK.
- **The algorithms on the command table's tree.** These are:
  - breadth-first flattening;
  - collecting the command rows to run, with the parent directory inherited from the nearest
    ancestor;
  - the roll-up of group statuses;
  - deep copy;
  - moving rows with index clamping;
  - grouping the selection;
  - removing the selection;
  - the keyboard move;
  - running every item that has a given comment.
- **Writing and reading the tree as JSON, in two formats.** The full format is written by
  `JsonConverter` and read by the newer `JSONFileReader`. The short format is written by the
  settings file and read by the older reader. The settings object and both window-layout records
  are modelled as well.
- **The small stateful records.** These are `CommandTreeNode`, the command-row classes whose
  setters keep a row and its command equal, and the size-limited output area.

Representation:

- A JavaFX `TreeItem` tree is a value, `Trees.Tree`. The object identity of a tree item is the
  node's `id`.
- `CommandTables.CommandTable` holds the table's root and a supply of fresh identities. Its
  invariant is that no two nodes share an id and every id is below the supply; every edit keeps it.
  A move, a grouping and a keyboard move take distinct items other than the root: the table hides
  its root (`setShowRoot(false)`), a selection holds each item once, and moving the root would
  reach its `null` parent.
- A collected command row and the table share one `Command` object. A collection therefore returns
  the table with the collected commands written into their rows (`TreeItemLists.WriteBack`).
- A JSON object is a `map<string, Json>`.
- Objects that the source changes in place are Dafny classes: `Command`, `CommandQueue`,
  `Settings`, the rows, `CommandTreeNode`, `LimitTextArea` and the layouts. Their methods are
  proved against functions on values, which carry the lemmas.
- Threads, the UI thread and the operating-system process become inputs and event traces:
  - `Command.Execute` receives the process outcome: the lines read, then an exit code or the
    message of the exception that ended the execution. An empty argument vector always ends in a
    launch failure.
  - `Command.Execute` returns the launch request and the notifications, in delivery order.
  - The queue appends every listener call and every worker-thread start to one trace.
  - The halt-on-error setting is a parameter.

Where the code and its documentation disagree, the model follows the code:

- `Command.java` never sets a status in its constructor. The status is `null` until an execution
  or `setCommandStatus` sets one, so it is an `Option`.
- `kill` only asks the process to end. It sets no status and sends no notification.
- `execute` does not set RUNNING itself.
- The queue has no aggregate status and no per-command output buffer. Its `commandOutput` does
  nothing.
- `setTextLimited` keeps its whole argument. See "Findings".

Some conditions throw an exception in the source before anything changes: `kill` with no running
command or no process, `addChild` on a command node, `updateCommandStatus` with a `null` status,
and `commandExecuted` while Running on a command whose status is `null`. These are modelled as an
`ok == false` result with the state unchanged.

## Model

| member | source | states |
|---|---|---|
| Status.CreateCommandStatus | src/CommandRunner/gui/CommandStatus.java:9-20 | -2 decodes to RUNNING, -1 to IDLE and 0 to OK, each if and only if; every other int decodes to FAIL, and only those do |
| Status.OkOnlyFromZero | src/CommandRunner/CommandStatus.java:11-22 | OK comes only from exit code 0; every value outside {-2, -1, 0} gives FAIL |
| Status.StringValuesOfEveryConstant | src/CommandRunner/gui/CommandStatus.java:22-35 | the four constants display as "running", "idle", "ok" and "fail", and no other string is ever produced |
| Status.StringValueInjective | src/CommandRunner/CommandStatus.java:24-37 | two statuses have the same display string exactly when they are the same status |
| StatusSort.Rank | src/CommandRunner/CommandStatus.java:40-62 | each status has a position below 4 in the order RUNNING, FAIL, IDLE, OK |
| StatusSort.CompareIsRankOrder | src/CommandRunner/CommandStatus.java:40-62 | the comparator's sign is the comparison of the ranks; it is zero only for equal statuses; compare(a, b) is minus compare(b, a) |
| StatusSort.SortedIffSortedByRank | src/CommandRunner/CommandStatus.java:40-62 | a list is ordered by the comparator exactly when its ranks never decrease |
| StatusSort.HeadHasLeastRank | src/CommandRunner/CommandStatus.java:39-63 | after the sort, the first status has the least rank of all the statuses in the list |
| StatusSort.SortedPermutationUnique | src/CommandRunner/CommandStatus.java:39-63 | two sorted arrangements of the same statuses are equal, so the result of the sort does not depend on the algorithm |
| StatusSort.MoveRankToFront | src/CommandRunner/CommandStatus.java:40 | one pass of the in-place sort moves every status of one rank in front of the higher ranks, as a permutation |
| StatusSort.SortCommandStatuses | src/CommandRunner/CommandStatus.java:39-63 | after sorting in place, every RUNNING comes before every FAIL, every FAIL before every IDLE and every IDLE before every OK, and the list holds the same statuses as before |
| Commands.SplitAllPieces | src/CommandRunner/Command.java:60 | cutting at every space gives pieces that contain no space and that join back, with single spaces, to the original string |
| Commands.StripTrailingEmpty | src/CommandRunner/Command.java:60 | `split` drops only trailing empty pieces: the result is a prefix of the pieces, ends in a non-empty piece, and every dropped piece is empty |
| Commands.JavaSplitSpec | src/CommandRunner/Command.java:60 | the argument vector has no piece that contains a space; a string without spaces is passed whole; joining the pieces gives back the string up to the trailing spaces that `split` drops |
| Commands.OutputTo | src/CommandRunner/Command.java:72-76 | one output line goes to every listener, in listener order |
| Commands.ExecutedTo | src/CommandRunner/Command.java:91 | `commandExecuted` goes to every listener, in listener order |
| Commands.LinesTo | src/CommandRunner/Command.java:69-77 | each line read reaches every listener, so there is one output notification per line and listener |
| Commands.FinalStatus | src/CommandRunner/Command.java:79-86 | an exception (at launch or later) gives FAIL; a normal exit gives OK exactly when the exit code is 0 |
| Commands.ExecutionEvents | src/CommandRunner/Command.java:69-95 | all output notifications come before the final `commandExecuted`, which each listener receives once, in order |
| Commands.BroadcastReachesOnce | src/CommandRunner/Command.java:73-74 | a listener registered once receives exactly one copy of each broadcast |
| Commands.NotRegisteredGetsNothing | src/CommandRunner/Command.java:73-74 | an object that is not registered receives nothing |
| Commands.LinesReachListener | src/CommandRunner/Command.java:69-77 | a listener registered once receives every line read, in reading order |
| Commands.ListenerSeesEveryLineThenExecuted | src/CommandRunner/Command.java:58-96 | a listener registered once sees every line in reading order, then the exception's message once if there was an exception, then exactly one `commandExecuted` |
| Commands.Command.constructor | src/CommandRunner/Command.java:23-28 | stores directory, name and arguments, and comment unchanged; no status, no process and an empty listener list |
| Commands.Command.SetCommandComment | src/CommandRunner/Command.java:34-36 | writes only the comment |
| Commands.Command.SetCommandNameAndArguments | src/CommandRunner/Command.java:42-44 | writes only the name and arguments |
| Commands.Command.SetCommandDirectory | src/CommandRunner/Command.java:50-52 | writes only the directory |
| Commands.Command.SetParentCommandDirectory | src/CommandRunner/gui/commandtable/CommandTableRowTreeItemListManipulator.java:44 | writes only the inherited directory, as the table helpers call it |
| Commands.Command.SetCommandStatus | src/CommandRunner/Command.java:107-109 | the status becomes the given one |
| Commands.Command.AddCommandListener | src/CommandRunner/Command.java:54-56 | appends the listener at the end of the list |
| Commands.Command.Execute | src/CommandRunner/Command.java:58-96 | the argv is the name and arguments split at spaces; the working directory is used only when non-empty; the process is recorded unless the launch failed; the notifications are those of one execution to the listeners held at the start; the status is the classified outcome; the listener list ends empty; an empty argv is only ever a launch failure, since `ProcessBuilder.start` throws on it |
| Commands.Command.NotifyExecuted | src/CommandRunner/Command.java:89-94 | `commandExecuted` is delivered to every listener, in order |
| Commands.Command.Kill | src/CommandRunner/Command.java:98-101 | ends the process of the last execution; without a process there is nothing to end, which is the null dereference, and `ok` is false |
| Commands.Command.Broadcast | src/CommandRunner/Command.java:72-76 | one line is delivered to every listener, in order |
| Queue.ToAll | src/CommandRunner/CommandQueue.java:59 | a notice goes to every listener, in listener order |
| Queue.StartBehaviour | src/CommandRunner/CommandQueue.java:26-32 | `commandQueueStarted` with the pending count always goes to every listener first; only a Stopped queue starts; it then dispatches its first command, or stops again when it has none; in every other state nothing else changes |
| Queue.StopBehaviour | src/CommandRunner/CommandQueue.java:44-48 | Running becomes Stopping; every other state is left as it is; nothing else changes |
| Queue.HaltKeepsPending | src/CommandRunner/CommandQueue.java:73-78 | a FAIL while Running with halt-on-error set gives Stopped with no running command and nothing dispatched; the pending commands are kept and every listener hears `commandQueueFinished` |
| Queue.AdvanceOrExhaust | src/CommandRunner/CommandQueue.java:62-80 | otherwise, while Running, a finished command is followed by the next pending one, which is announced with the count left counting itself and then dispatched; with none left the queue stops |
| Queue.ExecutedWhenNotRunning | src/CommandRunner/CommandQueue.java:81-84 | when Stopping, a finished command stops the queue without dispatching; when Stopped, it changes nothing |
| Queue.KillBehaviour | src/CommandRunner/CommandQueue.java:50-60 | a kill that reaches a started process empties the pending commands, stops the queue, clears the running command and notifies every listener; otherwise nothing changes |
| Queue.DispatchFollowsListOrder | src/CommandRunner/CommandQueue.java:34-84 | in every run after `setCommands(cs)` on a Stopped queue, the dispatched commands are a prefix of `cs`, so they come strictly in list order and each at most once; every `commandQueueIsProcessing` names the command being dispatched and the number not yet dispatched, counting it |
| Queue.RunKeepsInvariant | src/CommandRunner/CommandQueue.java:26-84 | every sequence of queue operations keeps the run invariant: dispatched commands plus pending commands make up the list (pending is empty after a kill), and a Stopped queue has no running command |
| Queue.StepKeepsInvariant | src/CommandRunner/CommandQueue.java:26-84 | each single operation keeps the run invariant |
| Queue.StoppingNotifiesOnce | src/CommandRunner/CommandQueue.java:56-60 | every entry into Stopped clears the running command and tells each listener registered once `commandQueueFinished` exactly once; steps that do not enter Stopped tell it nothing |
| Queue.CommandQueue.constructor | src/CommandRunner/CommandQueue.java:20-24 | Stopped, with no pending commands, no running command and the given listeners |
| Queue.CommandQueue.NotifyAll | src/CommandRunner/CommandQueue.java:59 | appends one notice per listener to the trace |
| Queue.CommandQueue.SetStoppedState | src/CommandRunner/CommandQueue.java:56-60 | the new state is the stopped-state transition of the old one |
| Queue.CommandQueue.ExecuteNextCommand | src/CommandRunner/CommandQueue.java:62-71 | the new state is the take-next-or-stop transition of the old one |
| Queue.CommandQueue.Start | src/CommandRunner/CommandQueue.java:26-32 | the new state is the start transition of the old one |
| Queue.CommandQueue.SetCommands | src/CommandRunner/CommandQueue.java:34-42 | accepted exactly when Stopped; it then replaces the pending commands and nothing else, and registers the queue with each command once per occurrence in the list; when refused, the queue and the commands are unchanged |
| Queue.CommandQueue.StopWhenCurrentCommandFinishes | src/CommandRunner/CommandQueue.java:44-48 | the new state is the stop transition of the old one |
| Queue.CommandQueue.Kill | src/CommandRunner/CommandQueue.java:50-54 | the new state and `ok` are the kill transition, given whether the running command has a process |
| Queue.CommandQueue.CommandExecuted | src/CommandRunner/CommandQueue.java:73-84 | the new state and `ok` are the advancement rule applied to the finished command's status and the halt-on-error setting |
| Queue.CommandQueue.CommandOutput | src/CommandRunner/CommandQueue.java:86-89 | the queue's state does not change |
| Queue.RegisterListener | src/CommandRunner/CommandQueue.java:37 | each listed command gets the listener appended once per occurrence in the list |
| TreeItemLists.GetFlatTreeItemList | src/CommandRunner/gui/commandtable/CommandTableRowTreeItemListManipulator.java:12-26 | the worklist loop lists the nodes in the order of the breadth-first specification |
| TreeItemLists.BfsIsLevelOrder | src/CommandRunner/gui/commandtable/CommandTableRowTreeItemListManipulator.java:14-23 | the whole worklist is listed before any of its children, and those before any of theirs |
| TreeItemLists.RootFirstThenChildren | src/CommandRunner/gui/fxml/GUIController.java:650-665 | the root comes first, followed by the breadth-first listing of its children |
| TreeItemLists.BfsListsEveryNodeOnce | src/CommandRunner/gui/commandtable/CommandTableRowTreeItemListManipulator.java:12-26 | the flat list is a permutation of the pre-order node list, so every node appears once and the length is the node count |
| TreeItemLists.NearestDirectoryNone | src/CommandRunner/gui/commandtable/CommandTableRowTreeItemListManipulator.java:40-49 | no directory is inherited exactly when no ancestor has a non-empty directory |
| TreeItemLists.NearestDirectorySome | src/CommandRunner/gui/commandtable/CommandTableRowTreeItemListManipulator.java:40-49 | an inherited directory is the non-empty directory of an ancestor, and no ancestor nearer to the item has a non-empty one |
| TreeItemLists.FindParentCommandDirectory | src/CommandRunner/gui/fxml/GUIController.java:510-519 | the parent walk with `break` finds the nearest ancestor with a non-empty directory |
| TreeItemLists.Collect | src/CommandRunner/gui/commandtable/CommandTableRowTreeItemListManipulator.java:38 | the list is only appended to, and the existing entries keep their positions; what the collected commands become in the table is stated by `TreeItemLists.AddAllCommandRowsForTreeItem` and `GuiRuns.RunWritesCollectedCommands` |
| TreeItemLists.CollectAll | src/CommandRunner/gui/commandtable/CommandTableRowTreeItemListManipulator.java:50-51 | collecting the children in turn only appends to the list, keeping its entries in place; the writes into the children's commands are those of `TreeItemLists.AddAllCommandRowsForTreeItem` |
| TreeItemLists.AddAllCommandRowsForTreeItem | src/CommandRunner/gui/commandtable/CommandTableRowTreeItemListManipulator.java:28-55 | the recursive method with its loops computes the collection specification; since the collected `Command` objects are the table's own, the table it returns is the given one with exactly the commands this call collected written into their rows |
| TreeItemLists.CollectAddsOnlyNew | src/CommandRunner/gui/commandtable/CommandTableRowTreeItemListManipulator.java:32-34 | every row a collection appends was not in the list it was given |
| TreeItemLists.WriteBackTwice | src/CommandRunner/gui/commandtable/CommandTableRowTreeItemListManipulator.java:36-45 | writing two lists of different rows into the table one after the other is writing both at once |
| TreeItemLists.WriteBackNothing | src/CommandRunner/gui/commandtable/CommandTableRowTreeItemListManipulator.java:32-34 | writing no collected command leaves the table as it was |
| TreeItemLists.WriteBackNodesOf | src/CommandRunner/gui/commandtable/CommandTableRowTreeItemListManipulator.java:36-45 | the written table has the same nodes in pre-order, each one written |
| TreeItemLists.CollectedCommandOf | src/CommandRunner/gui/commandtable/CommandTableRowTreeItemListManipulator.java:32-36 | in a list without a repeated row, a row's identity leads back to the command collected for it |
| TreeItemLists.CollectAppendsCommandRowsInOrder | src/CommandRunner/gui/commandtable/CommandTableRowTreeItemListManipulator.java:28-55 | when none of the item's command rows is collected yet, exactly those rows are appended, in visiting order, so no group row is ever added |
| TreeItemLists.CollectKeepsRowsDistinct | src/CommandRunner/gui/commandtable/CommandTableRowTreeItemListManipulator.java:32-34 | collection never adds a row that is already in the list |
| TreeItemLists.CollectCommandRow | src/CommandRunner/gui/fxml/GUIController.java:497-519 | a command row already collected changes nothing; a new one is appended with its strings, its status reset to IDLE when resetting, and the nearest ancestor's directory when there is one (otherwise its parent directory stays as it was) |
| GuiRuns.AncestorRows | src/CommandRunner/gui/fxml/GUIController.java:510-518 | the rows above a node exist exactly when the node is in the tree |
| GuiRuns.WithComment | src/CommandRunner/gui/fxml/GUIController.java:467-472 | keeps exactly the items whose comment equals the argument |
| GuiRuns.CommandsWithComment | src/CommandRunner/gui/fxml/GUIController.java:466-472 | the loop keeps exactly the items with that comment, in their order |
| GuiRuns.RunCommandTreeItems | src/CommandRunner/gui/fxml/GUIController.java:477-479 | collects the command rows of every item in turn, and returns the table with every collected command written into its row |
| GuiRuns.RunAllCommandsWithComment | src/CommandRunner/gui/fxml/GUIController.java:461-475 | nothing runs for a `null` or empty comment and the table is unchanged; otherwise the run uses the breadth-first items with that comment, and the table afterwards holds the collected commands |
| GuiRuns.RunStartsFromCommentedItems | src/CommandRunner/gui/fxml/GUIController.java:466-474 | the items a run starts from are exactly the nodes of the table that have that comment |
| GuiRuns.CollectResetsToIdle | src/CommandRunner/gui/fxml/GUIController.java:505-508 | every command this collection adds has status IDLE |
| GuiRuns.RunItemsKeepsRowsDistinct | src/CommandRunner/gui/fxml/GUIController.java:501-503 | a run never lists the same command row twice |
| GuiRuns.RunAllHandsOverIdleDistinctCommands | src/CommandRunner/gui/fxml/GUIController.java:461-508 | every command handed to the queue is IDLE and none is listed twice |
| GuiRuns.RunWritesCollectedCommands | src/CommandRunner/gui/fxml/GUIController.java:477-519 | after a run, every collected command row of the table holds exactly the command handed to the queue for it, with status IDLE and its status text kept; every other row is as it was; no node changes identity, expansion or place |
| TableStatus.UpdateGroupStatusesRollsUp | src/CommandRunner/gui/commandtable/CommandTableController.java:419-435 | afterwards every node with children has its children's shared status, or "" when they differ; only the statuses of nodes with children change |
| TableStatus.RollUpIsUnique | src/CommandRunner/gui/fxml/GUIController.java:684-700 | the roll-up is the only rolled-up tree that differs from the input at most in the statuses of nodes with children |
| TableStatus.UpdateGroupStatusesIsIdempotent | src/CommandRunner/gui/commandtable/CommandTableController.java:419-435 | rolling up twice is the same as rolling up once |
| TableStatus.RollUpGroupStatuses | src/CommandRunner/gui/commandtable/CommandTableController.java:419-435 | the recursive method computes the post-order roll-up |
| TableStatus.ChildrenStatus | src/CommandRunner/gui/fxml/GUIController.java:691-699 | the `anyMatch` test gives the first child's status when every child has it, and "" otherwise |
| TableStatus.CopyTreeIsCopy | src/CommandRunner/gui/commandtable/CommandTableController.java:437-458 | a copy has the original's shape; every command row wraps a copy of the command (same three strings, status IDLE); groups keep name, directory and comment, or only the name in the GUIController copy |
| TableStatus.CopyTreeIds | src/CommandRunner/gui/fxml/GUIController.java:702-725 | the new items take consecutive identities from the supply, in pre-order; `CommandTables.CopiesAreFresh` shows that none of them is already in the table |
| TableStatus.CopyTreeItem | src/CommandRunner/gui/commandtable/CommandTableController.java:437-458 | the recursive method with its loop computes the copy and uses up exactly one identity per node |
| TableStatus.SizeCountsNodes | src/CommandRunner/gui/commandtable/CommandTableController.java:437-458 | the size used to number the copy is the node count |
| TableEdits.DetachRemoves | src/CommandRunner/gui/commandtable/CommandTableController.java:222-228 | after the removal no node with a removed identity is left in the tree |
| TableEdits.DetachTwice | src/CommandRunner/gui/commandtable/CommandTableController.java:342-344 | removing one set of items and then another is the same as removing both |
| TableEdits.InsertFindsSplicedParent | src/CommandRunner/gui/commandtable/CommandTableController.java:237 | after `addAll`, the parent has exactly its old children with the rows spliced in at the index |
| TableEdits.Clamp | src/CommandRunner/gui/commandtable/CommandTableController.java:230-236 | the index is clamped into [0, size]: too large gives size, negative gives 0, otherwise it is unchanged |
| TableEdits.MovedRows | src/CommandRunner/gui/commandtable/CommandTableController.java:222-228 | one subtree per dragged row, moved or deep-copied |
| TableEdits.MoveInsertsContiguously | src/CommandRunner/gui/commandtable/CommandTableController.java:217-249 | the rows land contiguously, in their given order, at the clamped index among the parent's remaining children |
| TableEdits.MoveDetaches | src/CommandRunner/gui/commandtable/CommandTableController.java:222-228 | a move leaves no dragged item in its old place |
| TableEdits.DropOntoGroupInsertsAtFront | src/CommandRunner/gui/commandtable/CommandTableController.java:195-215 | dropping onto a group with `moveIntoIfGroup` inserts into that group at index -1, which clamps to 0, the front |
| TableEdits.GroupIndex | src/CommandRunner/gui/commandtable/CommandTableController.java:279-304 | the group's index is the item's former index clamped to the last position, or 0 when the parent has no children left |
| TableEdits.GroupingBehaviour | src/CommandRunner/gui/commandtable/CommandTableController.java:279-304 | an empty selection changes nothing; otherwise a new group holding the selected items, in order, stands in the first item's parent at the clamped index among the remaining children, and one identity is used up |
| TableEdits.FilterNestedKeepsNoChildOfKept | src/CommandRunner/gui/commandtable/CommandTableController.java:307-311 | the removal list holds only selected items, and no kept item has its parent kept too |
| TableEdits.FilterNestedSelection | src/CommandRunner/gui/commandtable/CommandTableController.java:307-311 | the loop computes the lazy filter, in which the list shrinks while it is being filtered |
| TableEdits.RemoveAllConfirmed | src/CommandRunner/gui/commandtable/CommandTableController.java:313-344 | when every confirmation is given, the filtered rows are removed with their subtrees and nothing else changes |
| TableEdits.MinNonNegative | src/CommandRunner/gui/commandtable/CommandTableController.java:384-395 | finds the smallest non-negative selected index, or reports that there is none |
| TableEdits.MinIndexSpec | src/CommandRunner/gui/commandtable/CommandTableController.java:384-395 | the minimum exists exactly when some index is non-negative; it is then a selected index, at most every non-negative one |
| CommandTables.CommandTable.TakeRows | src/CommandRunner/gui/commandtable/CommandTableController.java:222-228 | for a move, the dragged items leave the tree; for a copy, the tree stays and every node of the copies has an identity from the supply that is not in the table; the table keeps distinct identities below the supply |
| CommandTables.CommandTable.MoveRowsToIndex | src/CommandRunner/gui/commandtable/CommandTableController.java:217-249 | the new tree is the move-to-index specification of the old one |
| CommandTables.CommandTable.MoveRowsToItem | src/CommandRunner/gui/commandtable/CommandTableController.java:195-215 | the new tree is the move-to-item specification of the old one |
| CommandTables.CommandTable.AddSelectedItemsToGroup | src/CommandRunner/gui/commandtable/CommandTableController.java:279-304 | the new tree is the grouping specification of the old one |
| CommandTables.CommandTable.RemoveCommandTableRow | src/CommandRunner/gui/commandtable/CommandTableController.java:306-344 | the filtered selection is removed, asking for confirmation before a non-empty group when that is set; a Cancel ends the removals |
| CommandTables.CommandTable.KeyboardMoveSelectedRows | src/CommandRunner/gui/commandtable/CommandTableController.java:384-395 | moves the selection to the row at the minimum non-negative selected index plus the modifier; does nothing for an empty selection or a negative target; `ok` is false when no selected index is non-negative |
| CommandTables.CommandTable.constructor | src/CommandRunner/gui/commandtable/CommandTableController.java:405-416 | a table whose identities are distinct and below the supply starts valid, with that root and supply |
| CommandTables.IdentitiesByCount | src/CommandRunner/gui/commandtable/CommandTableController.java:222-249 | distinct identities below the supply is the same as every identity carried by at most one node, and only below the supply |
| CommandTables.MoveSplits | src/CommandRunner/gui/commandtable/CommandTableController.java:222-228 | taking distinct dragged items out of a valid table leaves the rest and the moved subtrees with no identity doubled |
| CommandTables.InsertKeepsIdentities | src/CommandRunner/gui/commandtable/CommandTableController.java:237 | rows that share no identity with the tree, inserted anywhere into it, keep its identities distinct and below the supply |
| CommandTables.CopiesAreFresh | src/CommandRunner/gui/commandtable/CommandTableController.java:223-226 | deep copies numbered from the supply share no identity with the table, and the supply then lies above them all |
| CommandTables.MoveKeepsIdentities | src/CommandRunner/gui/commandtable/CommandTableController.java:217-249 | `moveRowsToIndex` keeps the table's identities distinct and below the supply, for a move of distinct non-root items and for every copy |
| CommandTables.MoveToItemKeepsIdentities | src/CommandRunner/gui/commandtable/CommandTableController.java:195-215 | `moveRowsToItem` keeps the table's identities distinct and below the supply |
| CommandTables.GroupKeepsIdentities | src/CommandRunner/gui/commandtable/CommandTableController.java:279-304 | grouping distinct non-root items keeps the identities distinct; the new group takes the supply's next identity |
| CommandTables.PruneKeepsIdentities | src/CommandRunner/gui/commandtable/CommandTableController.java:342-344 | removing subtrees keeps the identities distinct and below the supply |
| CommandTables.RemoveKeepsIdentities | src/CommandRunner/gui/commandtable/CommandTableController.java:306-344 | `removeCommandTableRow` keeps the identities distinct and below the supply, whatever the dialogs answer |
| Json.GetCastString | src/main/java/se/itello/commandrunner/JSONFileReader.java:49-51 | `(String) object.get(key)`: a missing key throws `JSONException`, a value that is not a string throws `ClassCastException` |
| Json.GetBoolean | src/main/java/se/itello/commandrunner/JSONFileReader.java:60 | accepts a boolean, or a string equal to "true" or "false" ignoring case; anything else throws |
| Json.GetInt | src/main/java/se/itello/commandrunner/gui/WindowLayout.java:48 | an integer value, wrapped to 32 bits; anything else throws |
| JsonTrees.NodeFieldsContents | src/CommandRunner/JsonConverter.java:32-55 | a command row has only a "command" entry holding its three strings; a group has its name and one child object per child, in order, and in the full format also its comment, directory and expansion |
| JsonTrees.AppendNodeHierarchyToJson | src/CommandRunner/JsonConverter.java:32-55 | the puts into the given object leave exactly the node's entries added to it |
| JsonTrees.ChildItems | src/CommandRunner/Settings.java:83-89 | one child object per child, in child order |
| JsonTrees.ConvertToJson | src/CommandRunner/JsonConverter.java:13-18 | the hierarchy is written into a fresh object |
| JsonTrees.ConvertItemsToJson | src/CommandRunner/JsonConverter.java:20-30 | one object per item, with the same length and order |
| JsonTrees.ReadExpanded | src/main/java/se/itello/commandrunner/JSONFileReader.java:60-62 | expanded exactly when "isExpanded" is present and true; the short format leaves a node collapsed |
| JsonTrees.CreateNode | src/main/java/se/itello/commandrunner/JSONFileReader.java:42-73 | the node is a command row exactly when there is a "command" entry; it has one child per children item; a children entry that is not an array throws `ClassCastException` |
| JsonTrees.ReadCommandRow | src/main/java/se/itello/commandrunner/JSONFileReader.java:48-53 | an object with "command" yields a command row built from its three strings, with status "idle" |
| JsonTrees.ReadGroupRow | src/CommandRunner/JSONFileReader.java:55-57 | without "command", the full format builds a group with directory and comment "" when absent; the short format uses the name alone |
| JsonTrees.CreateChildrenInOrder | src/main/java/se/itello/commandrunner/JSONFileReader.java:64-70 | the children are built in array order |
| JsonTrees.ReadWhatWasWritten | src/main/java/se/itello/commandrunner/JSONFileReader.java:42-73 | reading what was written restores every command's strings, every group's name and child order, and in the full format every group's directory, comment and expansion |
| JsonTrees.ReadAllWritten | src/CommandRunner/JSONFileReader.java:43-70 | reading the written children restores each of them in order |
| JsonTrees.BuildNode | src/CommandRunner/Settings.java:93-120 | the method with its `for` loop computes `createNode` |
| JsonTrees.BuildChildren | src/main/java/se/itello/commandrunner/JSONFileReader.java:79-87 | the loop computes `createNodes`, one node per element in order, and the first failure decides |
| JsonTrees.CreateNodesOf | src/CommandRunner/JSONFileReader.java:72-74 | returns exactly the children of the node built from the object |
| SettingsFile.SaveOnExitNamesRoundTrip | src/CommandRunner/Settings.java:139 | `valueOf(toString())` is the identity, and `valueOf` accepts only the three names |
| SettingsFile.SettingsObject | src/CommandRunner/Settings.java:54-61 | the saved object has exactly the keys commands, haltOnError, confirmNonemptyDelete and saveOnExit, holding the tree in the short format, the two flags and the choice's name |
| SettingsFile.LoadOnlyCommandsKeepsFlags | src/CommandRunner/Settings.java:135-140 | `load(true)` replaces only the root, and the flags and the save-on-exit choice stay as they were |
| SettingsFile.LoadWhatWasSaved | src/CommandRunner/Settings.java:50-147 | loading what `save` wrote restores the two flags, the choice, and the tree's command strings, group names and child order |
| SettingsFile.Settings.constructor | src/CommandRunner/Settings.java:37-40 | no root; halt on error on, confirming deletion of non-empty groups on, ask on exit |
| SettingsFile.Settings.Save | src/CommandRunner/Settings.java:50-69 | stores the root, then writes the settings object; with no root nothing is written |
| SettingsFile.Settings.SaveSettingsButKeepCommands | src/CommandRunner/Settings.java:46-48 | saves the root it already holds |
| SettingsFile.Settings.Load | src/CommandRunner/Settings.java:122-147 | the new settings and the outcome are those of the load specification |
| SettingsFile.Settings.SetHaltOnError | src/CommandRunner/Settings.java:153-155 | sets the flag |
| SettingsFile.Settings.SetConfirmNonemptyDelete | src/CommandRunner/Settings.java:157-159 | sets the flag |
| SettingsFile.Settings.SetSaveOnExit | src/CommandRunner/Settings.java:173-175 | sets the choice |
| CommandTreeNodes.CommandTreeNode.constructor | src/CommandRunner/CommandTreeNode.java:12-21 | a null command gives an empty children list; a command gives no list |
| CommandTreeNodes.CommandTreeNode.HasCommand | src/CommandRunner/CommandTreeNode.java:39-41 | true exactly when the node has a command, which for a node built by the constructor is exactly when it has no children list |
| CommandTreeNodes.CommandTreeNode.GetName | src/CommandRunner/CommandTreeNode.java:27-33 | the command's name and arguments when there is a command, otherwise the node's own name |
| CommandTreeNodes.CommandTreeNode.HasChildren | src/CommandRunner/CommandTreeNode.java:43-45 | true exactly when a children list exists and is not empty, so never for a command node |
| CommandTreeNodes.CommandTreeNode.AddChild | src/CommandRunner/CommandTreeNode.java:47-49 | appends at the end of the list; on a command node, which has no list, nothing changes and `ok` is false |
| Rows.CommandTableCommandRow.constructor | src/CommandRunner/gui/CommandTableRow.java:17-24 | the row shows its command's three strings with status "idle" |
| Rows.CommandTableCommandRow.GetCommand | src/CommandRunner/gui/commandtable/CommandTableCommandRow.java:22-24 | always the command given at construction |
| Rows.CommandTableCommandRow.SetCommandNameAndArguments | src/CommandRunner/gui/commandtable/CommandTableCommandRow.java:26-30 | writes the row and the command together, so a row that was in sync stays in sync |
| Rows.CommandTableCommandRow.SetCommandDirectory | src/main/java/se/itello/commandrunner/gui/commandtable/CommandTableCommandRow.java:29-33 | writes the row and the command together, so a row that was in sync stays in sync |
| Rows.CommandTableCommandRow.SetCommandComment | src/CommandRunner/gui/CommandTableRow.java:80-83 | writes the row and the command together, so a row that was in sync stays in sync |
| Rows.CommandTableCommandRow.SetCommandStatus | src/CommandRunner/gui/CommandTableRow.java:64-66 | writes the row's status text only |
| Rows.CommandTableCommandRow.UpdateCommandStatus | src/CommandRunner/gui/CommandTableCommandRow.java:37-39 | the row shows its command's status string; a `null` status throws and changes nothing |
| LimitTextAreas.AppendLimitedKeepsNewest | src/CommandRunner/gui/commandqueuetree/LimitTextArea.java:8-16 | at or under 102400 characters an append is plain concatenation; over the bound exactly the newest 102400 old characters precede the new text; the new text always ends the content, after a suffix of the old one |
| LimitTextAreas.LimitTextArea.AppendTextLimited | src/main/java/se/itello/commandrunner/gui/commandqueuetree/LimitTextArea.java:8-16 | the content becomes the limited append of the old content and the text |
| LimitTextAreas.LimitTextArea.SetTextLimited | src/CommandRunner/gui/commandqueuetree/LimitTextArea.java:18-26 | as written, the content ends equal to the whole argument |
| LimitTextAreas.NewestLimited | src/main/java/se/itello/commandrunner/gui/commandqueuetree/LimitTextArea.java:18-22 | the newest 102400 characters of a longer text, or the whole of a shorter one |
| LimitTextAreas.LimitTextArea.SetTextLimitedCapped | src/CommandRunner/gui/commandqueuetree/LimitTextArea.java:19-22 | the content is the newest 102400 characters of the argument, never more |
| LimitTextAreas.SetTextLimitedExceedsBound | src/CommandRunner/gui/commandqueuetree/LimitTextArea.java:18-26 | for a text one character over the bound, the version as written keeps 102401 characters and the capped one keeps 102400 |
| WindowLayouts.LayoutJson | src/main/java/se/itello/commandrunner/gui/WindowLayout.java:150-162 | the object has the nine declared keys, plus THEME exactly when there is a theme |
| WindowLayouts.LayoutJsonRoundTrip | src/main/java/se/itello/commandrunner/gui/WindowLayout.java:47-58 | reading back `jsonObject()` restores every int, boolean and string field exactly, and the dividers through the float narrowing; a layout without a theme cannot be read back |
| WindowLayouts.LayoutJsonLookups | src/main/java/se/itello/commandrunner/gui/WindowLayout.java:150-158 | each size, divider and column key holds its field |
| WindowLayouts.LayoutJsonFlagLookups | src/main/java/se/itello/commandrunner/gui/WindowLayout.java:159-161 | the maximised, theme and status-bar keys hold their fields |
| WindowLayouts.ThemeIsRead | src/main/java/se/itello/commandrunner/gui/WindowLayout.java:56 | a layout read from JSON always has a theme |
| WindowLayouts.WindowLayout.constructor | src/main/java/se/itello/commandrunner/gui/WindowLayout.java:44-45 | every field at Java's default |
| WindowLayouts.WindowLayout.SetWindowWidth | src/main/java/se/itello/commandrunner/gui/WindowLayout.java:60-63 | changes only its field and returns the same object |
| WindowLayouts.WindowLayout.SetWindowHeight | src/main/java/se/itello/commandrunner/gui/WindowLayout.java:65-68 | changes only its field and returns the same object |
| WindowLayouts.WindowLayout.SetVerticalDividerPosition | src/main/java/se/itello/commandrunner/gui/WindowLayout.java:70-73 | changes only its field and returns the same object |
| WindowLayouts.WindowLayout.SetHorizontalDividerPosition | src/main/java/se/itello/commandrunner/gui/WindowLayout.java:75-78 | changes only its field and returns the same object |
| WindowLayouts.WindowLayout.SetTableCommandColumnWidth | src/main/java/se/itello/commandrunner/gui/WindowLayout.java:80-83 | changes only its field and returns the same object |
| WindowLayouts.WindowLayout.SetTableDirectoryColumnWidth | src/main/java/se/itello/commandrunner/gui/WindowLayout.java:85-88 | changes only its field and returns the same object |
| WindowLayouts.WindowLayout.SetTableCommentColumnWidth | src/main/java/se/itello/commandrunner/gui/WindowLayout.java:90-93 | changes only its field and returns the same object |
| WindowLayouts.WindowLayout.SetMaximized | src/main/java/se/itello/commandrunner/gui/WindowLayout.java:95-98 | changes only its field and returns the same object |
| WindowLayouts.WindowLayout.SetTheme | src/main/java/se/itello/commandrunner/gui/WindowLayout.java:100-103 | changes only its field and returns the same object |
| WindowLayouts.WindowLayout.SetShowStatusBar | src/main/java/se/itello/commandrunner/gui/WindowLayout.java:105-108 | changes only its field and returns the same object |
| WindowLayouts.WindowLayout.JsonObject | src/main/java/se/itello/commandrunner/gui/WindowLayout.java:150-162 | the object's JSON form is that of its current fields |
| WindowLayouts.DefaultLayout | src/main/java/se/itello/commandrunner/gui/WindowLayout.java:9-20 | 1040 by 600, columns 490, 250 and 100, not maximised, light theme, status bar shown |
| WindowLayouts.FromJson | src/main/java/se/itello/commandrunner/gui/WindowLayout.java:47-58 | builds a layout exactly when every getter succeeds, with the values read; otherwise it throws the first getter's exception |
| ClassicWindowLayouts.ClassicJson | src/CommandRunner/gui/WindowLayout.java:111-120 | the object has exactly the seven declared keys |
| ClassicWindowLayouts.ClassicJsonRoundTrip | src/CommandRunner/gui/WindowLayout.java:38-46 | reading back `jsonObject()` restores the five ints exactly, and the dividers through the float narrowing |
| ClassicWindowLayouts.ClassicReadsLaterLayout | src/CommandRunner/gui/WindowLayout.java:38-46 | an object written in the later layout format can be read by the earlier one, which ignores the extra keys |
| ClassicWindowLayouts.ClassicWindowLayout.constructor | src/CommandRunner/gui/WindowLayout.java:35-36 | the private constructor leaves every field at Java's default |
| ClassicWindowLayouts.ClassicWindowLayout.SetWindowWidth | src/CommandRunner/gui/WindowLayout.java:48-51 | changes only its field and returns the same object |
| ClassicWindowLayouts.ClassicWindowLayout.SetWindowHeight | src/CommandRunner/gui/WindowLayout.java:53-56 | changes only its field and returns the same object |
| ClassicWindowLayouts.ClassicWindowLayout.SetVerticalDividerPosition | src/CommandRunner/gui/WindowLayout.java:58-61 | changes only its field and returns the same object |
| ClassicWindowLayouts.ClassicWindowLayout.SetHorizontalDividerPosition | src/CommandRunner/gui/WindowLayout.java:63-66 | changes only its field and returns the same object |
| ClassicWindowLayouts.ClassicWindowLayout.SetTableCommandColumnWidth | src/CommandRunner/gui/WindowLayout.java:68-71 | changes only its field and returns the same object |
| ClassicWindowLayouts.ClassicWindowLayout.SetTableDirectoryColumnWidth | src/CommandRunner/gui/WindowLayout.java:73-76 | changes only its field and returns the same object |
| ClassicWindowLayouts.ClassicWindowLayout.SetTableCommentColumnWidth | src/CommandRunner/gui/WindowLayout.java:78-81 | changes only its field and returns the same object |
| ClassicWindowLayouts.ClassicWindowLayout.JsonObject | src/CommandRunner/gui/WindowLayout.java:111-120 | the object's JSON form is that of its current fields |
| ClassicWindowLayouts.ClassicDefaultLayout | src/CommandRunner/gui/WindowLayout.java:7-15 | 1040 by 806, columns 490, 250 and 100 |
| ClassicWindowLayouts.ClassicFromJsonObject | src/CommandRunner/gui/WindowLayout.java:38-46 | builds a layout exactly when every getter succeeds, with the values read; otherwise it throws the first getter's exception |

## Left out

- The operating-system process is not modelled: `ProcessBuilder.start`, the output stream, `waitFor` and `destroyForcibly`. Its outcome is an input to `Commands.Command.Execute`, and killing it is a recorded request.
- Threads are not modelled: `new Thread(...).start()`, `Platform.runLater`, and the `TextAppendThread` classes. Their effects are an ordered, sequential event trace. Which thread runs a notification, and when, is not modelled.
- The JavaFX controllers, views, cells, dialogs, drag and drop, selection changes, icons and animations are not modelled. The tree algorithms buried in them are modelled on the tree value. The duplicates of those helpers in `MainController` are not modelled separately.
- File access, the JSON text form and the org.json library are not modelled. The settings file is the JSON value it holds (`None` when there is no file). `readJsonObjectFromFile` and `ProgramState` are not part of this model.
- `CommandRunner.java` is not part of this model: the bootstrap, the singleton and `System.exit`. The halt-on-error setting read through its singleton is a parameter of `Queue.CommandQueue.CommandExecuted`.
- The listener interfaces are not part of this model. Their calls appear as the events the source makes.
- The group-row classes and the remaining row base classes are not modelled as classes, only as the `GroupRow` variant of `Trees.Row`.
- `Command.copy()` and `setParentCommandDirectory` are called by the table code but are not defined in the `Command.java` revision modelled here. The copy follows its documented meaning: the same three strings and status IDLE.
- `null` strings are not modelled: every string is a value, so the directory test `!= null && !isEmpty()` becomes "non-empty". A `null` root, status, theme or comment argument is an `Option`. `JSONObject.NULL` values are not modelled.
- `Json.GetInt`, `Json.GetDouble`: org.json also parses numeric strings; the model accepts only integer numbers, which is what the writers produce.
- Floating point is not modelled. The divider positions are reals; the `(float)` narrowing is the parameter `toFloat`; the `0.75f` and `0.83f` defaults are parameters of `WindowLayouts.DefaultLayout` and `ClassicWindowLayouts.ClassicDefaultLayout`.
- `WindowLayouts.WindowLayout.SetTheme`: `setTheme(null)` is not modelled, so a theme once set is always present.
- A missing dialog answer in `CommandTables.CommandTable.RemoveCommandTableRow` counts as Cancel. The alert itself is not modelled.
- `GuiRuns.RunCommandTreeItems` returns the collected rows and the table they were written into. It does not chain the queue's `setCommands` and `start` itself, which `Queue.CommandQueue` models. Creating the queue and clearing the selection are not modelled.
- `Status.StringValue` states only that the strings are not trivial. The exact strings and their injectivity are the lemmas `Status.StringValuesOfEveryConstant` and `Status.StringValueInjective`.
- `StatusSort.SortCommandStatuses` is not specified as a stable sort. `StatusSort.SortedPermutationUnique` shows that any sorted permutation is the only one, so stability makes no observable difference for statuses.
- `Rows.CommandTableCommandRow.SetCommandStatus`, `Rows.CommandTableCommandRow.UpdateCommandStatus` and the row's status text model only the `src/CommandRunner/gui` row classes. The `src/main/java/se/itello/commandrunner/gui/commandtable` row has no status text and neither method; it is the same class without the status.
- `LimitTextAreas.AppendLimited`, `LimitTextAreas.LimitTextArea.AppendTextLimited`, `LimitTextAreas.LimitTextArea.SetTextLimited` and `LimitTextAreas.LimitTextArea.SetTextLimitedCapped` count lengths and cut points in characters (Unicode scalar values), not in Java's UTF-16 code units. On text outside the Basic Multilingual Plane the source keeps fewer characters under the 102400 bound and its cut can split a surrogate pair; on other text the two agree.
- `Rows.CommandTableCommandRow.SetCommandNameAndArguments`: the `src/CommandRunner/gui` row class calls the command setter twice, directly and through its base class. The repeated write of the same value is modelled once.
- The selection-restoring and expansion effects that `moveRowsToIndex` posts to the UI thread are not modelled. Neither is the row index it looks up for them.

## Findings

| source | as written | input that shows it | evidently intended | confidence | as-written member | corrected member |
|---|---|---|---|---|---|---|
| src/CommandRunner/gui/commandqueuetree/LimitTextArea.java:18-26 (also src/main/java/se/itello/commandrunner/gui/commandqueuetree/LimitTextArea.java:18-26) | the truncated `setText` of a long text is overwritten at once by `setText(text)`, so the whole argument is kept whatever its length | a text of 102401 characters: the content ends with 102401 characters | keep only the newest 102400 characters, like `appendTextLimited` (the full `setText` belongs in an else branch) | not executed | LimitTextAreas.LimitTextArea.SetTextLimited, LimitTextAreas.SetTextLimitedExceedsBound | LimitTextAreas.LimitTextArea.SetTextLimitedCapped, LimitTextAreas.NewestLimited |
