/** One runnable command and the lifecycle of a single execution
    (src/CommandRunner/Command.java). The operating-system process is abstracted away: an
    execution is given the process's outcome (the output lines it produced, then either an exit
    code or the message of the exception that ended it) and reports the process it would launch
    and the notifications it delivers to its listeners, in delivery order. */
module Commands {
  import opened Wrappers
  import opened Status

  /** What `execute` observed of the process: the launch itself threw, or the process started and
      produced `lines` and then either exited with a code or an exception (a broken stream, an
      interrupted wait) ended the execution. */
  datatype ProcessOutcome =
    | LaunchFailed(launchMessage: string)
    | Exited(lines: seq<string>, exitCode: Int32)
    | Failed(lines: seq<string>, message: string)

  /** The process `execute` asks the operating system for: an argument vector and, when set,
      a working directory. */
  datatype LaunchRequest = LaunchRequest(argv: seq<string>, workingDirectory: Option<string>)

  /** One notification to one `CommandListener`. */
  datatype CommandEvent = Output(listener: object, line: string) | Executed(listener: object)

  // ---------------------------------------------------------------------------------------------
  // `String.split(" ")`

  /** The pieces between consecutive space characters, empty ones included. */
  function SplitAll(s: string): (r: seq<string>)
    ensures |r| >= 1
  {
    if s == [] then [""]
    else
      var rest := SplitAll(s[1..]);
      if s[0] == ' ' then [""] + rest else [[s[0]] + rest[0]] + rest[1..]
  }

  /** Pieces glued back together with one space between neighbours. */
  function JoinWithSpace(ps: seq<string>): string
  {
    if |ps| == 0 then "" else if |ps| == 1 then ps[0] else ps[0] + " " + JoinWithSpace(ps[1..])
  }

  function Spaces(n: nat): (r: string)
    ensures |r| == n && forall i :: 0 <= i < n ==> r[i] == ' '
  {
    if n == 0 then "" else Spaces(n - 1) + " "
  }

  /** Drops the empty strings at the end. */
  function StripTrailingEmpty(ps: seq<string>): (r: seq<string>)
    ensures |r| <= |ps| && r == ps[..|r|]
    ensures r == [] || r[|r| - 1] != ""
    ensures forall i :: |r| <= i < |ps| ==> ps[i] == ""
  {
    if ps != [] && ps[|ps| - 1] == "" then StripTrailingEmpty(ps[..|ps| - 1]) else ps
  }

  /** Java's `s.split(" ")`: a string without a space is its own only piece; otherwise the string
      is cut at every space and trailing empty pieces are removed (so `" "` has no pieces). */
  function JavaSplit(s: string): seq<string>
  {
    if ' ' !in s then [s] else StripTrailingEmpty(SplitAll(s))
  }

  lemma {:induction false} SplitAllPieces(s: string)
    ensures forall i :: 0 <= i < |SplitAll(s)| ==> ' ' !in SplitAll(s)[i]
    ensures JoinWithSpace(SplitAll(s)) == s
  {
    if s != [] {
      SplitAllPieces(s[1..]);
      var rest := SplitAll(s[1..]);
      if s[0] == ' ' {
        assert SplitAll(s) == [""] + rest;
        if |rest| == 1 {
          assert JoinWithSpace(SplitAll(s)) == "" + " " + rest[0];
        } else {
          assert SplitAll(s)[1..] == rest;
        }
      } else {
        assert SplitAll(s) == [[s[0]] + rest[0]] + rest[1..];
        if |rest| > 1 {
          assert JoinWithSpace(rest) == rest[0] + " " + JoinWithSpace(rest[1..]);
          assert SplitAll(s)[1..] == rest[1..];
        }
      }
    }
  }

  lemma {:induction false} JoinWithTrailingEmpty(ps: seq<string>)
    requires |ps| >= 1
    ensures JoinWithSpace(ps + [""]) == JoinWithSpace(ps) + " "
  {
    if |ps| > 1 {
      assert (ps + [""])[1..] == ps[1..] + [""];
      JoinWithTrailingEmpty(ps[1..]);
    }
  }

  lemma {:induction false} StripKeepsJoin(ps: seq<string>)
    requires |ps| >= 1
    ensures var r := StripTrailingEmpty(ps);
            |JoinWithSpace(r)| <= |JoinWithSpace(ps)| &&
            JoinWithSpace(ps) == JoinWithSpace(r) + Spaces(|JoinWithSpace(ps)| - |JoinWithSpace(r)|)
    decreases |ps|
  {
    var r := StripTrailingEmpty(ps);
    if ps[|ps| - 1] == "" {
      var init := ps[..|ps| - 1];
      assert ps == init + [""];
      if |init| == 0 {
        assert r == [];
      } else {
        assert r == StripTrailingEmpty(init);
        StripKeepsJoin(init);
        JoinWithTrailingEmpty(init);
        var a, b := JoinWithSpace(init), JoinWithSpace(r);
        var k := |a| - |b|;
        assert a == b + Spaces(k);
        assert JoinWithSpace(ps) == a + " ";
        assert Spaces(k) + " " == Spaces(k + 1);
        assert JoinWithSpace(ps) == b + Spaces(k + 1);
        assert |JoinWithSpace(ps)| - |b| == k + 1;
      }
    } else {
      assert r == ps;
    }
  }

  /** The argument vector is the name-and-arguments string cut at single spaces: no piece holds a
      space, joining the pieces with single spaces gives back the string up to the trailing spaces
      dropped by `split`, and a string without spaces is passed whole. */
  lemma JavaSplitSpec(s: string)
    ensures var r := JavaSplit(s);
            (forall i :: 0 <= i < |r| ==> ' ' !in r[i]) &&
            (' ' !in s ==> r == [s]) &&
            (' ' in s ==> r == [] || r[|r| - 1] != "") &&
            |JoinWithSpace(r)| <= |s| &&
            s == JoinWithSpace(r) + Spaces(|s| - |JoinWithSpace(r)|)
  {
    var r := JavaSplit(s);
    if ' ' in s {
      SplitAllPieces(s);
      StripKeepsJoin(SplitAll(s));
      forall i | 0 <= i < |r| ensures ' ' !in r[i] {
        assert r[i] == SplitAll(s)[i];
      }
    } else {
      assert Spaces(0) == "";
      assert s + "" == s;
    }
  }

  // ---------------------------------------------------------------------------------------------
  // Notifications of one execution

  /** One output line delivered to every listener, in listener order. */
  function OutputTo(ls: seq<object>, line: string): (r: seq<CommandEvent>)
    ensures |r| == |ls| && forall i :: 0 <= i < |ls| ==> r[i] == Output(ls[i], line)
  {
    seq(|ls|, i requires 0 <= i < |ls| => Output(ls[i], line))
  }

  /** `commandExecuted` delivered to every listener, in listener order. */
  function ExecutedTo(ls: seq<object>): (r: seq<CommandEvent>)
    ensures |r| == |ls| && forall i :: 0 <= i < |ls| ==> r[i] == Executed(ls[i])
  {
    seq(|ls|, i requires 0 <= i < |ls| => Executed(ls[i]))
  }

  /** Every line, in reading order, each delivered to every listener. */
  function LinesTo(ls: seq<object>, lines: seq<string>): (r: seq<CommandEvent>)
    ensures |r| == |lines| * |ls|
    ensures forall i :: 0 <= i < |r| ==> r[i].Output?
  {
    if lines == [] then [] else LinesTo(ls, lines[..|lines| - 1]) + OutputTo(ls, lines[|lines| - 1])
  }

  /** The lines that reach a listener through `commandOutput`: those read, then the exception's
      message on the failure path. */
  function DeliveredLines(outcome: ProcessOutcome): seq<string>
  {
    match outcome
    case LaunchFailed(message) => [message]
    case Exited(lines, _) => lines
    case Failed(lines, message) => lines + [message]
  }

  /** The status an execution ends with. */
  function FinalStatus(outcome: ProcessOutcome): (s: CommandStatus)
    ensures !outcome.Exited? ==> s == Fail
    ensures outcome.Exited? ==> (s == CommandStatus.Ok <==> outcome.exitCode == 0)
  {
    match outcome
    case Exited(_, code) => CreateCommandStatus(code)
    case _ => Fail
  }

  /** All notifications of one execution: the output lines, then `commandExecuted` to each
      listener, which comes after every output line. */
  function ExecutionEvents(ls: seq<object>, outcome: ProcessOutcome): (r: seq<CommandEvent>)
    ensures |r| == (|DeliveredLines(outcome)| + 1) * |ls|
    ensures forall i :: 0 <= i < |r| - |ls| ==> r[i].Output?
    ensures forall i :: 0 <= i < |ls| ==> r[|r| - |ls| + i] == Executed(ls[i])
  {
    LinesTo(ls, DeliveredLines(outcome)) + ExecutedTo(ls)
  }

  /** The events addressed to listener `l`. */
  function EventsFor(events: seq<CommandEvent>, l: object): seq<CommandEvent>
  {
    if events == [] then []
    else EventsFor(events[..|events| - 1], l)
         + (if events[|events| - 1].listener == l then [events[|events| - 1]] else [])
  }

  lemma {:induction false} EventsForAppend(a: seq<CommandEvent>, b: seq<CommandEvent>, l: object)
    ensures EventsFor(a + b, l) == EventsFor(a, l) + EventsFor(b, l)
    decreases |b|
  {
    if b != [] {
      assert (a + b)[..|a + b| - 1] == a + b[..|b| - 1];
      EventsForAppend(a, b[..|b| - 1], l);
    } else {
      assert a + b == a;
    }
  }

  /** A listener registered once receives exactly one copy of a broadcast. */
  lemma {:induction false} BroadcastReachesOnce(ls: seq<object>, l: object, e: object -> CommandEvent,
                                                 r: seq<CommandEvent>)
    requires multiset(ls)[l] == 1
    requires forall x :: e(x).listener == x
    requires |r| == |ls| && forall i :: 0 <= i < |ls| ==> r[i] == e(ls[i])
    ensures EventsFor(r, l) == [e(l)]
    decreases |ls|
  {
    var n := |ls| - 1;
    assert ls == ls[..n] + [ls[n]];
    assert r == r[..n] + [r[n]];
    EventsForAppend(r[..n], [r[n]], l);
    assert EventsFor([r[n]], l) == EventsFor([], l) + (if r[n].listener == l then [r[n]] else []);
    if ls[n] == l {
      assert multiset(ls[..n])[l] == 0;
      NotRegisteredGetsNothing(ls[..n], l, e, r[..n]);
    } else {
      assert multiset(ls[..n])[l] == 1;
      BroadcastReachesOnce(ls[..n], l, e, r[..n]);
    }
  }

  lemma {:induction false} NotRegisteredGetsNothing(ls: seq<object>, l: object, e: object -> CommandEvent,
                                                     r: seq<CommandEvent>)
    requires multiset(ls)[l] == 0
    requires forall x :: e(x).listener == x
    requires |r| == |ls| && forall i :: 0 <= i < |ls| ==> r[i] == e(ls[i])
    ensures EventsFor(r, l) == []
    decreases |ls|
  {
    if ls != [] {
      var n := |ls| - 1;
      assert ls == ls[..n] + [ls[n]];
      assert r[..|r| - 1] == r[..n];
      NotRegisteredGetsNothing(ls[..n], l, e, r[..n]);
    }
  }

  lemma {:induction false} LinesReachListener(ls: seq<object>, lines: seq<string>, l: object)
    requires multiset(ls)[l] == 1
    ensures EventsFor(LinesTo(ls, lines), l) == seq(|lines|, i requires 0 <= i < |lines| => Output(l, lines[i]))
    decreases |lines|
  {
    if lines != [] {
      var n := |lines| - 1;
      LinesReachListener(ls, lines[..n], l);
      EventsForAppend(LinesTo(ls, lines[..n]), OutputTo(ls, lines[n]), l);
      BroadcastReachesOnce(ls, l, (x: object) => Output(x, lines[n]), OutputTo(ls, lines[n]));
      var before := seq(n, i requires 0 <= i < n => Output(l, lines[..n][i]));
      assert EventsFor(LinesTo(ls, lines), l) == before + [Output(l, lines[n])];
      assert before + [Output(l, lines[n])] == seq(|lines|, i requires 0 <= i < |lines| => Output(l, lines[i]));
    }
  }

  /** What one listener (registered once) sees of an execution: every line in reading order, the
      exception's message once on the failure path, and finally one `commandExecuted`. */
  lemma ListenerSeesEveryLineThenExecuted(ls: seq<object>, outcome: ProcessOutcome, l: object)
    requires multiset(ls)[l] == 1
    ensures var d := DeliveredLines(outcome);
            EventsFor(ExecutionEvents(ls, outcome), l)
            == seq(|d|, i requires 0 <= i < |d| => Output(l, d[i])) + [Executed(l)]
  {
    var d := DeliveredLines(outcome);
    LinesReachListener(ls, d, l);
    EventsForAppend(LinesTo(ls, d), ExecutedTo(ls), l);
    BroadcastReachesOnce(ls, l, (x: object) => Executed(x), ExecutedTo(ls));
  }

  lemma LinesToSnoc(ls: seq<object>, lines: seq<string>, i: nat)
    requires i < |lines|
    ensures LinesTo(ls, lines[..i + 1]) == LinesTo(ls, lines[..i]) + OutputTo(ls, lines[i])
  {
    assert lines[..i + 1][..i] == lines[..i];
  }

  // ---------------------------------------------------------------------------------------------

  class Command {
    var nameAndArguments: string
    var directory: string
    var comment: string
    /** Working directory inherited from an enclosing group (set by the table helpers). */
    var parentDirectory: string
    /** `null` until an execution or a caller sets it. */
    var status: Option<CommandStatus>
    var listeners: seq<object>
    /** The process started by the last execution, `null` before one started. */
    var process: Option<LaunchRequest>

    /** Stores the three strings unchanged; no status yet and no listeners. */
    constructor (directory: string, nameAndArguments: string, comment: string)
      ensures this.directory == directory && this.nameAndArguments == nameAndArguments
      ensures this.comment == comment && parentDirectory == ""
      ensures status == None && listeners == [] && process == None
    {
      this.nameAndArguments := nameAndArguments;
      this.directory := directory;
      this.comment := comment;
      parentDirectory := "";
      status := None;
      listeners := [];
      process := None;
    }

    method SetCommandComment(comment: string)
      modifies this`comment
      ensures this.comment == comment
    {
      this.comment := comment;
    }

    method SetCommandNameAndArguments(nameAndArguments: string)
      modifies this`nameAndArguments
      ensures this.nameAndArguments == nameAndArguments
    {
      this.nameAndArguments := nameAndArguments;
    }

    method SetCommandDirectory(directory: string)
      modifies this`directory
      ensures this.directory == directory
    {
      this.directory := directory;
    }

    method SetParentCommandDirectory(parentDirectory: string)
      modifies this`parentDirectory
      ensures this.parentDirectory == parentDirectory
    {
      this.parentDirectory := parentDirectory;
    }

    method SetCommandStatus(status: CommandStatus)
      modifies this`status
      ensures this.status == Some(status)
    {
      this.status := Some(status);
    }

    method AddCommandListener(listener: object)
      modifies this`listeners
      ensures listeners == old(listeners) + [listener]
    {
      listeners := listeners + [listener];
    }

    /** `execute`: launches `nameAndArguments` split at spaces, in `directory` when that is
        non-empty; delivers every line read to every listener; classifies the exit code, or on an
        exception sets FAIL and delivers the message; then notifies every listener that the command
        executed and clears the listener list. An empty argument list never starts a process:
        `ProcessBuilder.start` throws on it, which the `catch` turns into a launch failure. */
    method Execute(outcome: ProcessOutcome) returns (launch: LaunchRequest, events: seq<CommandEvent>)
      requires JavaSplit(nameAndArguments) == [] ==> outcome.LaunchFailed?
      modifies this`status, this`listeners, this`process
      ensures process == if outcome.LaunchFailed? then old(process) else Some(launch)
      ensures launch.argv == JavaSplit(nameAndArguments)
      ensures launch.workingDirectory == if directory != "" then Some(directory) else None
      ensures events == ExecutionEvents(old(listeners), outcome)
      ensures status == Some(FinalStatus(outcome))
      ensures listeners == []
    {
      var argv := JavaSplit(nameAndArguments);
      var workingDirectory := None;
      if directory != "" {
        workingDirectory := Some(directory);
      }
      launch := LaunchRequest(argv, workingDirectory);
      if !outcome.LaunchFailed? {
        process := Some(launch);
      }

      var lines := if outcome.LaunchFailed? then [] else outcome.lines;
      events := [];
      var i := 0;
      while i < |lines|
        invariant 0 <= i <= |lines|
        invariant listeners == old(listeners)
        invariant process == if outcome.LaunchFailed? then old(process) else Some(launch)
        invariant events == LinesTo(listeners, lines[..i])
      {
        var sent := Broadcast(lines[i]);
        LinesToSnoc(listeners, lines, i);
        events := events + sent;
        i := i + 1;
      }
      assert lines[..i] == lines;
      match outcome {
        case Exited(_, code) =>
          status := Some(CreateCommandStatus(code));
        case _ =>
          var message := DeliveredLines(outcome)[|lines|];
          var sent := Broadcast(message);
          LinesToSnoc(listeners, lines + [message], |lines|);
          assert (lines + [message])[..|lines|] == lines;
          assert (lines + [message])[..|lines| + 1] == DeliveredLines(outcome);
          events := events + sent;
          status := Some(Fail);
      }
      assert events == LinesTo(old(listeners), DeliveredLines(outcome));
      var executed := NotifyExecuted();
      events := events + executed;
      listeners := [];
    }

    /** `commandExecuted` for every listener, in listener order. */
    method NotifyExecuted() returns (executed: seq<CommandEvent>)
      ensures executed == ExecutedTo(listeners)
    {
      var j := 0;
      executed := [];
      while j < |listeners|
        invariant 0 <= j <= |listeners|
        invariant executed == ExecutedTo(listeners[..j])
      {
        executed := executed + [Executed(listeners[j])];
        j := j + 1;
      }
      assert listeners[..j] == listeners;
    }

    /** `kill`: asks the process of the last execution to end. Before any process started the
        source dereferences `null`; that case is reported as `ok == false` and requests nothing. */
    method Kill() returns (ok: bool, destroyed: Option<LaunchRequest>)
      ensures ok <==> process.Some?
      ensures destroyed == process
    {
      ok := process.Some?;
      destroyed := process;
    }

    /** `commandOutput` for one line: the listener loop. */
    method Broadcast(line: string) returns (events: seq<CommandEvent>)
      ensures events == OutputTo(listeners, line)
    {
      events := [];
      var k := 0;
      while k < |listeners|
        invariant 0 <= k <= |listeners|
        invariant events == OutputTo(listeners[..k], line)
      {
        events := events + [Output(listeners[k], line)];
        k := k + 1;
      }
      assert listeners[..k] == listeners;
    }
  }
}
