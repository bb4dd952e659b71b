/** The sequential command queue (src/CommandRunner/CommandQueue.java): a three-state machine that
    hands its pending commands, one at a time and in order, to a worker thread. Starting the worker
    thread is recorded as a `Dispatched` event and every listener call as a `Notified` event, all in
    one trace in the order they happen. */
module Queue {
  import opened Wrappers
  import Status
  import opened Commands

  datatype QueueStatus = Stopped | Running | Stopping

  /** The three `CommandQueueListener` calls the queue makes. */
  datatype Notice =
    | QueueStarted(items: nat)
    | QueueProcessing(command: Command, itemsLeft: nat)
    | QueueFinished

  datatype QueueEvent =
    | Notified(listener: object, notice: Notice)
    /** `new Thread(command::execute).start()` */
    | Dispatched(command: Command)
    /** `runningCommand.kill()` reaching a started process */
    | KillRequested(command: Command)

  /** The queue's fields: `status`, the deque `commands`, `runningCommand`, and the trace. */
  datatype QueueState = QueueState(status: QueueStatus, pending: seq<Command>,
                                   running: Option<Command>, trace: seq<QueueEvent>)

  /** One notice given to every listener, in listener order (`listeners.forEach`). */
  function ToAll(ls: seq<object>, n: Notice): (r: seq<QueueEvent>)
    ensures |r| == |ls| && forall i :: 0 <= i < |ls| ==> r[i] == Notified(ls[i], n)
  {
    seq(|ls|, i requires 0 <= i < |ls| => Notified(ls[i], n))
  }

  // ---------------------------------------------------------------------------------------------
  // The transitions, on values

  /** `setStoppedState` */
  function StoppedState(q: QueueState, ls: seq<object>): QueueState
  {
    q.(status := Stopped, running := None, trace := q.trace + ToAll(ls, QueueFinished))
  }

  /** `executeNextCommand`: take the first pending command, announce it with the number of
      commands left counting itself, and dispatch it; with none left, stop. */
  function ExecuteNext(q: QueueState, ls: seq<object>): QueueState
  {
    if q.pending == [] then StoppedState(q, ls)
    else
      var c := q.pending[0];
      q.(pending := q.pending[1..], running := Some(c),
         trace := q.trace + ToAll(ls, QueueProcessing(c, |q.pending|)) + [Dispatched(c)])
  }

  /** `start` */
  function StartSpec(q: QueueState, ls: seq<object>): QueueState
  {
    var announced := q.(trace := q.trace + ToAll(ls, QueueStarted(|q.pending|)));
    if q.status == Stopped then ExecuteNext(announced.(status := Running), ls) else announced
  }

  /** `stopWhenCurrentCommandFinishes` */
  function StopSpec(q: QueueState): QueueState
  {
    if q.status == Running then q.(status := Stopping) else q
  }

  /** `kill`; `processStarted` says whether the running command's process exists. Without a running
      command, or without its process, the source throws a NullPointerException before changing
      anything: the result is then `false` with the state unchanged. */
  function KillSpec(q: QueueState, ls: seq<object>, processStarted: bool): (QueueState, bool)
  {
    if q.running.None? || !processStarted then (q, false)
    else (StoppedState(q.(pending := [], trace := q.trace + [KillRequested(q.running.value)]), ls), true)
  }

  /** `commandExecuted`, given the status of the finished command and the halt-on-error setting.
      The status is read only while Running; a missing (`null`) status there throws before any
      change, reported as `false`. */
  function CommandExecutedSpec(q: QueueState, ls: seq<object>, finished: Option<Status.CommandStatus>,
                               haltOnError: bool): (QueueState, bool)
  {
    match q.status
    case Running =>
      if finished.None? then (q, false)
      else if finished.value == Status.Fail && haltOnError then (StoppedState(q, ls), true)
      else (ExecuteNext(q, ls), true)
    case Stopping => (StoppedState(q, ls), true)
    case Stopped => (q, true)
  }

  // ---------------------------------------------------------------------------------------------
  // Properties of the transitions

  /** `start` always announces the pending count to every listener first; only a Stopped queue
      starts running and dispatches its first command (or stops again when it has none). */
  lemma StartBehaviour(q: QueueState, ls: seq<object>)
    ensures var r := StartSpec(q, ls);
            |r.trace| >= |q.trace| + |ls| &&
            r.trace[..|q.trace| + |ls|] == q.trace + ToAll(ls, QueueStarted(|q.pending|)) &&
            (q.status != Stopped ==> r == q.(trace := q.trace + ToAll(ls, QueueStarted(|q.pending|)))) &&
            (q.status == Stopped && q.pending != [] ==>
               r.status == Running && r.running == Some(q.pending[0]) && r.pending == q.pending[1..] &&
               r.trace[|r.trace| - 1] == Dispatched(q.pending[0])) &&
            (q.status == Stopped && q.pending == [] ==> r.status == Stopped && r.running == None)
  {
    var r := StartSpec(q, ls);
    var announced := q.trace + ToAll(ls, QueueStarted(|q.pending|));
    assert r.trace[..|announced|] == announced by {
      if q.status == Stopped && q.pending != [] {
        var c := q.pending[0];
        assert r.trace == announced + (ToAll(ls, QueueProcessing(c, |q.pending|)) + [Dispatched(c)]);
      } else if q.status == Stopped {
        assert r.trace == announced + ToAll(ls, QueueFinished);
      }
    }
  }

  /** `stopWhenCurrentCommandFinishes` turns Running into Stopping and does nothing otherwise. */
  lemma StopBehaviour(q: QueueState)
    ensures StopSpec(q).status == (if q.status == Running then Stopping else q.status)
    ensures StopSpec(q).(status := q.status) == q
  {
  }

  /** Halt on error: a failed command while Running stops the queue, dispatches nothing and keeps
      the remaining commands pending. */
  lemma HaltKeepsPending(q: QueueState, ls: seq<object>)
    requires q.status == Running
    ensures var (r, ok) := CommandExecutedSpec(q, ls, Some(Status.Fail), true);
            ok && r.status == Stopped && r.running == None && r.pending == q.pending &&
            r.trace == q.trace + ToAll(ls, QueueFinished)
  {
  }

  /** A command that finished while Running, without halting, is followed by the next pending
      command, or by Stopped when none is left. */
  lemma AdvanceOrExhaust(q: QueueState, ls: seq<object>, finished: Status.CommandStatus, haltOnError: bool)
    requires q.status == Running
    requires !(finished == Status.Fail && haltOnError)
    ensures var (r, ok) := CommandExecutedSpec(q, ls, Some(finished), haltOnError);
            ok &&
            (q.pending != [] ==> r.status == Running && r.running == Some(q.pending[0]) &&
                                 r.pending == q.pending[1..] &&
                                 r.trace == q.trace + ToAll(ls, QueueProcessing(q.pending[0], |q.pending|))
                                            + [Dispatched(q.pending[0])]) &&
            (q.pending == [] ==> r.status == Stopped && r.running == None && r.pending == [])
  {
  }

  /** When Stopping, a finished command stops the queue without dispatching; when Stopped, it
      changes nothing. */
  lemma ExecutedWhenNotRunning(q: QueueState, ls: seq<object>, finished: Option<Status.CommandStatus>,
                               haltOnError: bool)
    requires q.status != Running
    ensures var (r, ok) := CommandExecutedSpec(q, ls, finished, haltOnError);
            ok &&
            (q.status == Stopping ==> r.status == Stopped && r.running == None && r.pending == q.pending &&
                                      r.trace == q.trace + ToAll(ls, QueueFinished)) &&
            (q.status == Stopped ==> r == q)
  {
  }

  /** `kill` of a started command empties the queue, stops it and tells every listener. */
  lemma KillBehaviour(q: QueueState, ls: seq<object>, processStarted: bool)
    ensures var (r, ok) := KillSpec(q, ls, processStarted);
            (ok <==> q.running.Some? && processStarted) &&
            (ok ==> r.status == Stopped && r.running == None && r.pending == [] &&
                    r.trace == q.trace + [KillRequested(q.running.value)] + ToAll(ls, QueueFinished)) &&
            (!ok ==> r == q)
  {
  }

  // ---------------------------------------------------------------------------------------------
  // Runs of the queue after `setCommands(cs)`

  /** Everything that can happen to a queue once it holds its commands (`setCommands` is refused
      unless the queue is Stopped, and then starts a new run). */
  datatype Step =
    | StartStep
    | StopStep
    | KillStep(processStarted: bool)
    | ExecutedStep(finished: Option<Status.CommandStatus>, haltOnError: bool)

  function Apply(q: QueueState, ls: seq<object>, s: Step): QueueState
  {
    match s
    case StartStep => StartSpec(q, ls)
    case StopStep => StopSpec(q)
    case KillStep(started) => KillSpec(q, ls, started).0
    case ExecutedStep(finished, halt) => CommandExecutedSpec(q, ls, finished, halt).0
  }

  function Run(q: QueueState, ls: seq<object>, steps: seq<Step>): QueueState
  {
    if steps == [] then q else Apply(Run(q, ls, steps[..|steps| - 1]), ls, steps[|steps| - 1])
  }

  /** The dispatched commands of a trace, in dispatch order. */
  function Dispatches(events: seq<QueueEvent>): seq<Command>
  {
    if events == [] then []
    else Dispatches(events[..|events| - 1])
         + (if events[|events| - 1].Dispatched? then [events[|events| - 1].command] else [])
  }

  /** Every `commandQueueIsProcessing(c, k)` of a trace names the command about to be dispatched,
      `cs[j]` when `j` commands went before it, and `k == |cs| - j` commands left counting it. */
  predicate ProcessingCountsRight(events: seq<QueueEvent>, cs: seq<Command>)
  {
    events == [] ||
    (ProcessingCountsRight(events[..|events| - 1], cs) &&
     var e := events[|events| - 1];
     var j := |Dispatches(events[..|events| - 1])|;
     (e.Notified? && e.notice.QueueProcessing? ==>
        j < |cs| && e.notice.command == cs[j] && e.notice.itemsLeft == |cs| - j))
  }

  /** The run invariant: the commands dispatched since the run began are a prefix of `cs`, the
      pending ones are the rest of `cs` (or nothing after a kill), and a Stopped queue has no
      running command. */
  ghost predicate RunInvariant(q: QueueState, cs: seq<Command>, start: nat)
  {
    start <= |q.trace| &&
    var d := Dispatches(q.trace[start..]);
    |d| <= |cs| && d == cs[..|d|] &&
    (q.pending == cs[|d|..] || q.pending == []) &&
    ProcessingCountsRight(q.trace[start..], cs) &&
    (q.status == Stopped ==> q.running.None?)
  }

  lemma {:induction false} DispatchesAppend(a: seq<QueueEvent>, b: seq<QueueEvent>)
    ensures Dispatches(a + b) == Dispatches(a) + Dispatches(b)
    decreases |b|
  {
    if b == [] {
      assert a + b == a;
    } else {
      assert (a + b)[..|a + b| - 1] == a + b[..|b| - 1];
      DispatchesAppend(a, b[..|b| - 1]);
    }
  }

  lemma {:induction false} NoticesDispatchNothing(ls: seq<object>, n: Notice)
    ensures Dispatches(ToAll(ls, n)) == []
    decreases |ls|
  {
    if ls != [] {
      assert ToAll(ls, n)[..|ls| - 1] == ToAll(ls[..|ls| - 1], n);
      NoticesDispatchNothing(ls[..|ls| - 1], n);
    }
  }

  /** Appending notices that are not `commandQueueIsProcessing`, or are for the right command. */
  lemma {:induction false} CountsRightAppendNotices(a: seq<QueueEvent>, ls: seq<object>, n: Notice,
                                                     cs: seq<Command>)
    requires ProcessingCountsRight(a, cs)
    requires n.QueueProcessing? ==> var j := |Dispatches(a)|;
               j < |cs| && n.command == cs[j] && n.itemsLeft == |cs| - j
    ensures ProcessingCountsRight(a + ToAll(ls, n), cs)
    decreases |ls|
  {
    if ls != [] {
      var init := ls[..|ls| - 1];
      CountsRightAppendNotices(a, init, n, cs);
      assert (a + ToAll(ls, n))[..|a + ToAll(ls, n)| - 1] == a + ToAll(init, n);
      DispatchesAppend(a, ToAll(init, n));
      NoticesDispatchNothing(init, n);
    } else {
      assert a + ToAll(ls, n) == a;
    }
  }

  lemma CountsRightAppendPlain(a: seq<QueueEvent>, e: QueueEvent, cs: seq<Command>)
    requires ProcessingCountsRight(a, cs)
    requires !e.Notified?
    ensures ProcessingCountsRight(a + [e], cs)
  {
    assert (a + [e])[..|a + [e]| - 1] == a;
  }

  /** Steps that only append notices other than `commandQueueIsProcessing` keep the invariant. */
  lemma AppendNoticesKeepsInvariant(q: QueueState, r: QueueState, ls: seq<object>, n: Notice,
                                    cs: seq<Command>, start: nat)
    requires RunInvariant(q, cs, start)
    requires !n.QueueProcessing?
    requires r.trace == q.trace + ToAll(ls, n)
    requires r.pending == q.pending || r.pending == []
    requires r.status == Stopped ==> r.running.None?
    ensures RunInvariant(r, cs, start)
  {
    assert r.trace[start..] == q.trace[start..] + ToAll(ls, n);
    DispatchesAppend(q.trace[start..], ToAll(ls, n));
    NoticesDispatchNothing(ls, n);
    CountsRightAppendNotices(q.trace[start..], ls, n, cs);
  }

  /** Appending the announcement and the dispatch of the next pending command `c`. */
  lemma DispatchKeepsCounts(events: seq<QueueEvent>, ls: seq<object>, c: Command, left: nat,
                            cs: seq<Command>)
    requires ProcessingCountsRight(events, cs)
    requires var j := |Dispatches(events)|; j < |cs| && c == cs[j] && left == |cs| - j
    ensures var added := events + ToAll(ls, QueueProcessing(c, left)) + [Dispatched(c)];
            ProcessingCountsRight(added, cs) && Dispatches(added) == Dispatches(events) + [c]
  {
    var n := QueueProcessing(c, left);
    var mid := events + ToAll(ls, n);
    CountsRightAppendNotices(events, ls, n, cs);
    DispatchesAppend(events, ToAll(ls, n));
    NoticesDispatchNothing(ls, n);
    CountsRightAppendPlain(mid, Dispatched(c), cs);
    DispatchesAppend(mid, [Dispatched(c)]);
    assert Dispatches([Dispatched(c)]) == [c] by {
      assert [Dispatched(c)][..0] == [];
    }
  }

  lemma ExecuteNextKeepsInvariant(q: QueueState, ls: seq<object>, cs: seq<Command>, start: nat)
    requires RunInvariant(q, cs, start)
    requires q.status != Stopped
    ensures RunInvariant(ExecuteNext(q, ls), cs, start)
  {
    var r := ExecuteNext(q, ls);
    if q.pending == [] {
      AppendNoticesKeepsInvariant(q, r, ls, QueueFinished, cs, start);
    } else {
      DispatchKeepsInvariant(q, ls, cs, start);
    }
  }

  lemma DispatchKeepsInvariant(q: QueueState, ls: seq<object>, cs: seq<Command>, start: nat)
    requires RunInvariant(q, cs, start)
    requires q.status != Stopped && q.pending != []
    ensures RunInvariant(ExecuteNext(q, ls), cs, start)
  {
    var r := ExecuteNext(q, ls);
    var c := q.pending[0];
    var before := q.trace[start..];
    var d := Dispatches(before);
    assert q.pending == cs[|d|..];
    assert |d| < |cs| && c == cs[|d|];
    DispatchKeepsCounts(before, ls, c, |q.pending|, cs);
    var after := before + ToAll(ls, QueueProcessing(c, |q.pending|)) + [Dispatched(c)];
    assert r.trace == q.trace + ToAll(ls, QueueProcessing(c, |q.pending|)) + [Dispatched(c)];
    assert r.trace[start..] == after;
    var d2 := Dispatches(after);
    assert d2 == d + [c];
    assert cs[..|d| + 1] == cs[..|d|] + [c];
    assert d2 == cs[..|d2|];
    assert r.pending == cs[|d2|..];
    assert ProcessingCountsRight(r.trace[start..], cs);
  }

  lemma KillKeepsInvariant(q: QueueState, ls: seq<object>, started: bool, cs: seq<Command>, start: nat)
    requires RunInvariant(q, cs, start)
    ensures RunInvariant(KillSpec(q, ls, started).0, cs, start)
  {
    if q.running.Some? && started {
      var killed := q.(pending := [], trace := q.trace + [KillRequested(q.running.value)]);
      assert killed.trace[start..] == q.trace[start..] + [KillRequested(q.running.value)];
      DispatchesAppend(q.trace[start..], [KillRequested(q.running.value)]);
      assert Dispatches([KillRequested(q.running.value)]) == [] by {
        assert [KillRequested(q.running.value)][..0] == [];
      }
      CountsRightAppendPlain(q.trace[start..], KillRequested(q.running.value), cs);
      AppendNoticesKeepsInvariant(killed, StoppedState(killed, ls), ls, QueueFinished, cs, start);
    }
  }

  lemma StepKeepsInvariant(q: QueueState, ls: seq<object>, s: Step, cs: seq<Command>, start: nat)
    requires RunInvariant(q, cs, start)
    ensures RunInvariant(Apply(q, ls, s), cs, start)
  {
    match s {
      case StartStep =>
        var announced := q.(trace := q.trace + ToAll(ls, QueueStarted(|q.pending|)));
        AppendNoticesKeepsInvariant(q, announced, ls, QueueStarted(|q.pending|), cs, start);
        if q.status == Stopped {
          ExecuteNextKeepsInvariant(announced.(status := Running), ls, cs, start);
        }
      case StopStep =>
      case KillStep(started) =>
        KillKeepsInvariant(q, ls, started, cs, start);
      case ExecutedStep(finished, halt) =>
        if q.status == Running && finished.Some? {
          if finished.value == Status.Fail && halt {
            AppendNoticesKeepsInvariant(q, StoppedState(q, ls), ls, QueueFinished, cs, start);
          } else {
            ExecuteNextKeepsInvariant(q, ls, cs, start);
          }
        } else if q.status == Stopping {
          AppendNoticesKeepsInvariant(q, StoppedState(q, ls), ls, QueueFinished, cs, start);
        }
    }
  }

  /** Dispatch order: in every run that begins with `setCommands(cs)` on a Stopped queue, the
      dispatched commands are `cs` taken strictly in order, each at most once, and each
      `commandQueueIsProcessing` reports the commands not yet dispatched counting the one being
      dispatched. */
  lemma {:induction false} DispatchFollowsListOrder(q: QueueState, ls: seq<object>, cs: seq<Command>,
                                                    steps: seq<Step>)
    requires q.status == Stopped && q.running.None?
    ensures var r := Run(q.(pending := cs), ls, steps);
            |q.trace| <= |r.trace| &&
            var d := Dispatches(r.trace[|q.trace|..]);
            |d| <= |cs| && d == cs[..|d|] && ProcessingCountsRight(r.trace[|q.trace|..], cs)
    decreases |steps|
  {
    if steps == [] {
      assert q.trace[|q.trace|..] == [];
    } else {
      DispatchFollowsListOrder(q, ls, cs, steps[..|steps| - 1]);
      RunKeepsInvariant(q.(pending := cs), ls, steps, cs, |q.trace|);
    }
  }

  lemma {:induction false} RunKeepsInvariant(q: QueueState, ls: seq<object>, steps: seq<Step>,
                                              cs: seq<Command>, start: nat)
    requires RunInvariant(q, cs, start) || (q.status == Stopped && q.running.None? && q.pending == cs &&
                                           start == |q.trace|)
    ensures RunInvariant(Run(q, ls, steps), cs, start)
    decreases |steps|
  {
    if !RunInvariant(q, cs, start) {
      assert q.trace[start..] == [];
      assert RunInvariant(q, cs, start);
    }
    if steps != [] {
      RunKeepsInvariant(q, ls, steps[..|steps| - 1], cs, start);
      StepKeepsInvariant(Run(q, ls, steps[..|steps| - 1]), ls, steps[|steps| - 1], cs, start);
    }
  }

  /** The number of `commandQueueFinished` calls a trace makes on listener `l`. */
  function FinishedCount(events: seq<QueueEvent>, l: object): nat
  {
    if events == [] then 0
    else FinishedCount(events[..|events| - 1], l)
         + (if events[|events| - 1] == Notified(l, QueueFinished) then 1 else 0)
  }

  lemma {:induction false} FinishedCountAppend(a: seq<QueueEvent>, b: seq<QueueEvent>, l: object)
    ensures FinishedCount(a + b, l) == FinishedCount(a, l) + FinishedCount(b, l)
    decreases |b|
  {
    if b == [] {
      assert a + b == a;
    } else {
      assert (a + b)[..|a + b| - 1] == a + b[..|b| - 1];
      FinishedCountAppend(a, b[..|b| - 1], l);
    }
  }

  lemma {:induction false} FinishedCountToAll(ls: seq<object>, n: Notice, l: object)
    ensures FinishedCount(ToAll(ls, n), l) == if n == QueueFinished then multiset(ls)[l] else 0
    decreases |ls|
  {
    if ls != [] {
      var init := ls[..|ls| - 1];
      assert ToAll(ls, n)[..|ls| - 1] == ToAll(init, n);
      assert ls == init + [ls[|ls| - 1]];
      FinishedCountToAll(init, n, l);
    }
  }

  lemma FinishedCountOne(e: QueueEvent, l: object)
    ensures FinishedCount([e], l) == if e == Notified(l, QueueFinished) then 1 else 0
  {
    assert [e][..0] == [];
  }

  /** What one step appends to the trace, and how often it tells `l` the queue finished. */
  ghost predicate AppendsFinishing(q: QueueState, r: QueueState, added: seq<QueueEvent>, l: object, count: nat)
  {
    r.trace == q.trace + added && FinishedCount(added, l) == count
  }

  lemma NoticeFinishing(ls: seq<object>, n: Notice, l: object)
    requires multiset(ls)[l] == 1
    ensures FinishedCount(ToAll(ls, n), l) == if n == QueueFinished then 1 else 0
  {
    FinishedCountToAll(ls, n, l);
  }

  /** Announcing and dispatching `c` tells nobody the queue finished. */
  lemma DispatchFinishing(ls: seq<object>, c: Command, left: nat, l: object)
    requires multiset(ls)[l] == 1
    ensures FinishedCount(ToAll(ls, QueueProcessing(c, left)) + [Dispatched(c)], l) == 0
  {
    FinishedCountAppend(ToAll(ls, QueueProcessing(c, left)), [Dispatched(c)], l);
    NoticeFinishing(ls, QueueProcessing(c, left), l);
    FinishedCountOne(Dispatched(c), l);
  }

  lemma ExecuteNextFinishing(q: QueueState, ls: seq<object>, l: object) returns (added: seq<QueueEvent>)
    requires multiset(ls)[l] == 1
    ensures AppendsFinishing(q, ExecuteNext(q, ls), added, l, if q.pending == [] then 1 else 0)
  {
    if q.pending == [] {
      NoticeFinishing(ls, QueueFinished, l);
      added := ToAll(ls, QueueFinished);
    } else {
      var c := q.pending[0];
      added := ToAll(ls, QueueProcessing(c, |q.pending|)) + [Dispatched(c)];
      DispatchFinishing(ls, c, |q.pending|, l);
      assert ExecuteNext(q, ls).trace == q.trace + added;
    }
  }

  lemma StartFinishing(q: QueueState, ls: seq<object>, l: object) returns (added: seq<QueueEvent>)
    requires multiset(ls)[l] == 1
    ensures AppendsFinishing(q, StartSpec(q, ls), added, l, if q.status == Stopped && q.pending == [] then 1 else 0)
  {
    var n := QueueStarted(|q.pending|);
    NoticeFinishing(ls, n, l);
    if q.status == Stopped {
      var a := q.(trace := q.trace + ToAll(ls, n), status := Running);
      var more := ExecuteNextFinishing(a, ls, l);
      FinishedCountAppend(ToAll(ls, n), more, l);
      added := ToAll(ls, n) + more;
      assert StartSpec(q, ls).trace == q.trace + added;
    } else {
      added := ToAll(ls, n);
    }
  }

  lemma KillFinishing(q: QueueState, ls: seq<object>, started: bool, l: object) returns (added: seq<QueueEvent>)
    requires multiset(ls)[l] == 1
    ensures AppendsFinishing(q, KillSpec(q, ls, started).0, added, l, if q.running.Some? && started then 1 else 0)
  {
    if q.running.Some? && started {
      var k := KillRequested(q.running.value);
      added := [k] + ToAll(ls, QueueFinished);
      FinishedCountAppend([k], ToAll(ls, QueueFinished), l);
      FinishedCountOne(k, l);
      NoticeFinishing(ls, QueueFinished, l);
      assert KillSpec(q, ls, started).0.trace == q.trace + added;
    } else {
      added := [];
      assert q.trace + added == q.trace;
    }
  }

  lemma ExecutedFinishing(q: QueueState, ls: seq<object>, finished: Option<Status.CommandStatus>,
                          halt: bool, l: object) returns (added: seq<QueueEvent>)
    requires multiset(ls)[l] == 1
    ensures var r := CommandExecutedSpec(q, ls, finished, halt).0;
            AppendsFinishing(q, r, added, l, if r.status == Stopped && q.status != Stopped then 1 else 0)
  {
    if q.status == Running && finished.Some? && !(finished.value == Status.Fail && halt) {
      added := ExecuteNextFinishing(q, ls, l);
    } else if q.status != Stopped && !(q.status == Running && finished.None?) {
      NoticeFinishing(ls, QueueFinished, l);
      added := ToAll(ls, QueueFinished);
    } else {
      added := [];
      assert q.trace + added == q.trace;
    }
  }

  /** Every entry into Stopped leaves no running command and tells each listener (registered once)
      `commandQueueFinished` exactly once; steps that do not enter Stopped tell it nothing. */
  lemma StoppingNotifiesOnce(q: QueueState, ls: seq<object>, s: Step, l: object)
    requires multiset(ls)[l] == 1
    requires q.status == Stopped ==> q.running.None?
    ensures var r := Apply(q, ls, s);
            var entered := r.status == Stopped && (q.status != Stopped || s.StartStep?);
            |q.trace| <= |r.trace| && r.trace[..|q.trace|] == q.trace &&
            (entered ==> r.running.None?) &&
            FinishedCount(r.trace[|q.trace|..], l) == if entered then 1 else 0
  {
    var r := Apply(q, ls, s);
    var added: seq<QueueEvent>;
    match s {
      case StartStep => added := StartFinishing(q, ls, l);
      case StopStep =>
        added := [];
        assert r.trace == q.trace + added;
      case KillStep(started) => added := KillFinishing(q, ls, started, l);
      case ExecutedStep(finished, halt) => added := ExecutedFinishing(q, ls, finished, halt, l);
    }
    assert r.trace[|q.trace|..] == added;
  }

  // ---------------------------------------------------------------------------------------------

  class CommandQueue {
    const listeners: seq<object>
    var status: QueueStatus
    var pending: seq<Command>
    var running: Option<Command>
    var trace: seq<QueueEvent>

    function State(): QueueState
      reads this
    {
      QueueState(status, pending, running, trace)
    }

    /** Stopped, with no commands, no running command and the given listeners. */
    constructor (listeners: seq<object>)
      ensures this.listeners == listeners
      ensures State() == QueueState(Stopped, [], None, [])
    {
      this.listeners := listeners;
      status := Stopped;
      pending := [];
      running := None;
      trace := [];
    }

    /** `listeners.forEach(l -> l.<notice>)` */
    method NotifyAll(n: Notice)
      modifies this`trace
      ensures trace == old(trace) + ToAll(listeners, n)
    {
      var i := 0;
      while i < |listeners|
        invariant 0 <= i <= |listeners|
        invariant trace == old(trace) + ToAll(listeners[..i], n)
      {
        assert ToAll(listeners[..i + 1], n) == ToAll(listeners[..i], n) + [Notified(listeners[i], n)];
        trace := trace + [Notified(listeners[i], n)];
        i := i + 1;
      }
      assert listeners[..i] == listeners;
    }

    method SetStoppedState()
      modifies this
      ensures State() == StoppedState(old(State()), listeners)
    {
      running := None;
      status := Stopped;
      NotifyAll(QueueFinished);
    }

    method ExecuteNextCommand()
      modifies this
      ensures State() == ExecuteNext(old(State()), listeners)
    {
      if pending != [] {
        var command := pending[0];
        pending := pending[1..];
        running := Some(command);
        NotifyAll(QueueProcessing(command, |pending| + 1));
        trace := trace + [Dispatched(command)];
      } else {
        SetStoppedState();
      }
    }

    method Start()
      modifies this
      ensures State() == StartSpec(old(State()), listeners)
    {
      NotifyAll(QueueStarted(|pending|));
      if status == Stopped {
        status := Running;
        ExecuteNextCommand();
      }
    }

    /** Accepts the commands only when Stopped, and then registers the queue as a listener of each
        supplied command (once per occurrence in the list). */
    method SetCommands(commands: seq<Command>) returns (ok: bool)
      modifies this, set c | c in commands :: c`listeners
      ensures ok <==> old(status) == Stopped
      ensures ok ==> State() == old(State()).(pending := commands)
      ensures !ok ==> State() == old(State())
      ensures forall c :: c in commands ==>
                c.listeners == old(c.listeners) + (if ok then Copies(this, multiset(commands)[c]) else [])
    {
      if status != Stopped {
        return false;
      }
      pending := commands;
      RegisterListener(commands, this);
      return true;
    }

    method StopWhenCurrentCommandFinishes()
      modifies this
      ensures State() == StopSpec(old(State()))
    {
      if status == Running {
        status := Stopping;
      }
    }

    /** `kill`: asks the running command to kill its process, drops every pending command and
        stops. `ok == false` stands for the NullPointerException thrown when there is no running
        command or it has no process yet; nothing has changed then. */
    method Kill() returns (ok: bool)
      modifies this
      ensures (State(), ok) == KillSpec(old(State()), listeners,
                                        old(running).Some? && old(running.value.process).Some?)
    {
      if running.None? {
        return false;
      }
      var command := running.value;
      var killed, _ := command.Kill();
      if !killed {
        return false;
      }
      trace := trace + [KillRequested(command)];
      pending := [];
      SetStoppedState();
      return true;
    }

    /** `commandExecuted`: the advancement rule. `haltOnError` is the halt-on-error setting. */
    method CommandExecuted(command: Command, haltOnError: bool) returns (ok: bool)
      modifies this
      ensures (State(), ok) == CommandExecutedSpec(old(State()), listeners, command.status, haltOnError)
    {
      ok := true;
      if status == Running {
        if command.status.None? {
          return false;
        }
        if command.status.value == Status.Fail && haltOnError {
          SetStoppedState();
        } else {
          ExecuteNextCommand();
        }
      } else if status == Stopping {
        SetStoppedState();
      }
    }

    /** `commandOutput` is ignored by the queue. */
    method CommandOutput(command: Command, text: string)
      ensures State() == old(State())
    {
    }
  }

  /** `commands.forEach(command -> command.addCommandListener(listener))` */
  method RegisterListener(commands: seq<Command>, listener: object)
    modifies set c | c in commands :: c`listeners
    ensures forall c :: c in commands ==>
              c.listeners == old(c.listeners) + Copies(listener, multiset(commands)[c])
  {
    var i := 0;
    while i < |commands|
      invariant 0 <= i <= |commands|
      invariant forall c :: c in commands ==>
                  c.listeners == old(c.listeners) + Copies(listener, multiset(commands[..i])[c])
    {
      assert commands[..i + 1] == commands[..i] + [commands[i]];
      assert commands[i] in commands;
      label before:
      commands[i].AddCommandListener(listener);
      forall c | c in commands
        ensures c.listeners == old(c.listeners) + Copies(listener, multiset(commands[..i + 1])[c])
      {
        if c != commands[i] {
          assert c.listeners == old@before(c.listeners);
        }
      }
      i := i + 1;
    }
    assert commands[..i] == commands;
  }

  /** `n` copies of `x`. */
  function Copies<T>(x: T, n: nat): (r: seq<T>)
    ensures |r| == n && forall i :: 0 <= i < n ==> r[i] == x
  {
    if n == 0 then [] else Copies(x, n - 1) + [x]
  }
}
