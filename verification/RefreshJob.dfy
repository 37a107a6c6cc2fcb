// The refresh job: one gpgsm process after the other (src/qgpgmerefreshsmimekeysjob.cpp).

module RefreshJob {
  import opened Text
  import opened CommandPacking

  datatype Error = NoError | Canceled | CannotStart | General | InvalidValue

  datatype Signal = Done | Result(error: Error)

  // What the outside does: the running process ends (and the next one, if one is wanted, can
  // be started or not), or the user cancels.
  datatype Event = Exited(exitCode: int, normalExit: bool, startable: bool) | Cancel

  // Whether an error tests true. For a cancel error this is up to the error class.
  predicate Truthy(e: Error, cancelTests: bool) {
    match e
    case NoError => false
    case Canceled => cancelTests
    case _ => true
  }

  datatype State = State(
    patternsToDo: seq<string>,
    error: Error,
    started: seq<seq<string>>,  // the patterns passed to each process that was started
    running: bool,
    signals: seq<Signal>)

  // Starting a process: what it takes leaves the list, and it runs if it can be started.
  function Started(s: State, startable: bool): State {
    var p := Pack(s.patternsToDo, BUDGET);
    if startable then s.(patternsToDo := p.rest, started := s.started + [p.args], running := true)
    else s.(patternsToDo := p.rest, error := CannotStart, running := false)
  }

  function Finished(s: State, exitCode: int, normalExit: bool, cancelTests: bool): State {
    var error := if !Truthy(s.error, cancelTests) && (!normalExit || exitCode != 0) then General else s.error;
    s.(error := error, running := false, signals := s.signals + [Done, Result(error)])
  }

  // After an exit: the next process if there is no error and something to do, else the end
  function AfterExit(s: State, exitCode: int, normalExit: bool, startable: bool, cancelTests: bool): State {
    if !Truthy(s.error, cancelTests) && s.patternsToDo != [] then
      var t := Started(s, startable);
      if startable then t else Finished(t, exitCode, normalExit, cancelTests)
    else Finished(s, exitCode, normalExit, cancelTests)
  }

  // Only a running process can exit.
  function Next(s: State, e: Event, cancelTests: bool): State {
    match e
    case Cancel => s.(error := Canceled)
    case Exited(exitCode, normalExit, startable) =>
      if s.running then AfterExit(s, exitCode, normalExit, startable, cancelTests) else s
  }

  datatype Key = Key(fingerprint: string, isSmime: bool)

  function Fingerprints(keys: seq<Key>): seq<string> {
    seq(|keys|, i requires 0 <= i < |keys| => keys[i].fingerprint)
  }

  class Job {
    const cancelTests: bool
    var mPatternsToDo: seq<string>
    var mError: Error
    var running: bool
    var started: seq<seq<string>>
    var signals: seq<Signal>

    ghost function Now(): State
      reads this
    {
      State(mPatternsToDo, mError, started, running, signals)
    }

    constructor (cancelTests: bool)
      ensures this.cancelTests == cancelTests
      ensures Now() == State([], NoError, [], false, [])
    {
      this.cancelTests := cancelTests;
      mPatternsToDo, mError, running, started, signals := [], NoError, false, [], [];
    }

    // An empty list stands for all keys: it becomes one blank pattern.
    method Start(patterns: seq<string>, startable: bool) returns (err: Error)
      requires mPatternsToDo == []
      modifies this
      ensures Now() == Started(old(Now()).(patternsToDo := if patterns == [] then [" "] else patterns), startable)
      ensures err == if startable then NoError else CannotStart
    {
      mPatternsToDo := patterns;
      if mPatternsToDo == [] {
        mPatternsToDo := [" "];
      }
      err := StartAProcess(startable);
    }

    // For no keys at all nothing is started, and an exit is queued.
    method StartKeys(keys: seq<Key>, startable: bool) returns (err: Error, queued: bool)
      requires mPatternsToDo == []
      modifies this
      ensures queued <==> keys == []
      ensures keys == [] ==> Now() == old(Now()) && err == NoError
      ensures (exists k :: k in keys && !k.isSmime) ==> Now() == old(Now()) && err == InvalidValue
      ensures keys != [] && (forall k :: k in keys ==> k.isSmime) ==>
                && Now() == Started(old(Now()).(patternsToDo := Fingerprints(keys)), startable)
                && err == if startable then NoError else CannotStart
    {
      queued := false;
      if keys == [] {
        return NoError, true;
      }
      for i := 0 to |keys|
        invariant forall j :: 0 <= j < i ==> keys[j].isSmime
      {
        if !keys[i].isSmime {
          return InvalidValue, false;
        }
      }
      assert Fingerprints(keys) != [];
      err := Start(Fingerprints(keys), startable);
    }

    method StartAProcess(startable: bool) returns (err: Error)
      modifies this
      ensures old(mPatternsToDo) == [] ==> Now() == old(Now()) && err == NoError
      ensures old(mPatternsToDo) != [] ==>
                Now() == Started(old(Now()), startable) && err == if startable then NoError else CannotStart
    {
      if mPatternsToDo == [] {
        return NoError;
      }
      var arguments;
      arguments, mPatternsToDo := TakePatterns(mPatternsToDo);
      if !startable {
        mError, running := CannotStart, false;
        return mError;
      }
      started, running := started + [arguments], true;
      err := NoError;
    }

    method SlotCancel()
      modifies this
      ensures Now() == Next(old(Now()), Cancel, cancelTests)
    {
      mError := Canceled;
    }

    // Called for each process that has been running, and once for an empty list of keys
    method SlotProcessExited(exitCode: int, normalExit: bool, startable: bool)
      modifies this
      ensures Now() == AfterExit(old(Now()), exitCode, normalExit, startable, cancelTests)
    {
      running := false;
      if !Truthy(mError, cancelTests) && mPatternsToDo != [] {
        var err := StartAProcess(startable);
        if Truthy(err, cancelTests) {
          mError := err;
        } else {
          return;
        }
      }
      signals := signals + [Done];
      if !Truthy(mError, cancelTests) && (!normalExit || exitCode != 0) {
        mError := General;
      }
      signals := signals + [Result(mError)];
    }

    // The event loop: events arrive in any order, exits only from running processes.
    method Run(events: seq<Event>)
      modifies this
      ensures Now() == AfterAll(old(Now()), events, cancelTests)
    {
      var i := 0;
      while i < |events|
        invariant 0 <= i <= |events|
        invariant AfterAll(Now(), events[i..], cancelTests) == AfterAll(old(Now()), events, cancelTests)
      {
        assert events[i..][0] == events[i] && events[i..][1..] == events[i + 1..];
        match events[i] {
          case Cancel =>
            SlotCancel();
          case Exited(exitCode, normalExit, startable) =>
            if running {
              SlotProcessExited(exitCode, normalExit, startable);
            }
        }
        i := i + 1;
      }
    }
  }

  function AfterAll(s: State, events: seq<Event>, cancelTests: bool): State
    decreases |events|
  {
    if events == [] then s else AfterAll(Next(s, events[0], cancelTests), events[1..], cancelTests)
  }

  // ---------- Whole runs

  predicate OnlyCleanStarts(events: seq<Event>) {
    forall e :: e in events ==> e.Exited? && e.startable
  }

  // The state of a job on given patterns right after start
  function Begun(patterns: seq<string>): State {
    Started(State(patterns, NoError, [], false, []), true)
  }

  function LastError(e: Event): Error
    requires e.Exited?
  {
    if e.normalExit && e.exitCode == 0 then NoError else General
  }

  lemma {:induction false} ChainRuns(s: State, events: seq<Event>, cancelTests: bool)
    requires AllFit(s.patternsToDo) && s.running && s.error == NoError && s.signals == []
    requires OnlyCleanStarts(events) && |events| == |Chain(s.patternsToDo)| + 1
    ensures AfterAll(s, events, cancelTests) ==
            State([], LastError(events[|events| - 1]), s.started + Chain(s.patternsToDo), false,
                  [Done, Result(LastError(events[|events| - 1]))])
    decreases |events|
  {
    var e := events[0];
    assert e in events;
    var t := Next(s, e, cancelTests);
    if s.patternsToDo == [] {
      assert s.started + [] == s.started;
      assert AfterAll(t, events[1..], cancelTests) == t;
    } else {
      var p := Pack(s.patternsToDo, BUDGET);
      PackAdvances(s.patternsToDo);
      PackLeavesEnd(s.patternsToDo, BUDGET);
      assert events[1..][|events| - 2] == events[|events| - 1];
      ChainRuns(t, events[1..], cancelTests);
      ConcatAssociates(s.started, [p.args], Chain(p.rest));
    }
  }

  // With every pattern fitting, every process startable and no cancel: one process for each
  // part of the chain, then done and result, once.
  lemma RunsTheChain(patterns: seq<string>, events: seq<Event>, cancelTests: bool)
    requires patterns != [] && AllFit(patterns) && OnlyCleanStarts(events)
    requires |events| == |Chain(patterns)|
    ensures var error := LastError(events[|events| - 1]);
            AfterAll(Begun(patterns), events, cancelTests) ==
              State([], error, Chain(patterns), false, [Done, Result(error)])
  {
    StartOfChain(patterns);
    ChainRuns(Begun(patterns), events, cancelTests);
  }

  lemma StartOfChain(patterns: seq<string>)
    requires patterns != [] && AllFit(patterns)
    ensures var p := Pack(patterns, BUDGET);
            && Begun(patterns) == State(p.rest, NoError, [p.args], true, [])
            && AllFit(p.rest) && Chain(patterns) == [p.args] + Chain(p.rest)
  {
    PackAdvances(patterns);
    PackLeavesEnd(patterns, BUDGET);
    assert [] + [Pack(patterns, BUDGET).args] == [Pack(patterns, BUDGET).args];
  }

  // The words cut, in order, into command lines that are short enough
  ghost predicate IsSplit(split: seq<seq<string>>, words: seq<string>) {
    Flatten(split) == words && forall part :: part in split ==> CommandLineLength(part) <= MAX_CMD_LENGTH
  }

  // The whole run of a job: all its processes together get the trimmed non-blank patterns
  // once and in order, on short enough command lines; no other way to cut them uses fewer
  // processes, but for the one that blank patterns left over cost; and only the exit of the
  // last one decides the result, which is signalled once, after done.
  lemma WholeRun(patterns: seq<string>, events: seq<Event>, cancelTests: bool)
    requires patterns != [] && AllFit(patterns) && OnlyCleanStarts(events)
    requires |events| == |Chain(patterns)|
    ensures AllFit(NonBlank(patterns))
    ensures var t := AfterAll(Begun(patterns), events, cancelTests);
            && t.patternsToDo == [] && !t.running
            && t.signals == [Done, Result(LastError(events[|events| - 1]))]
            && IsSplit(t.started, NonBlank(patterns))
            && (forall split :: IsSplit(split, NonBlank(patterns)) ==>
                  |t.started| <= |split| + if BlanksLeftOver(patterns) then 1 else 0)
  {
    RunsTheChain(patterns, events, cancelTests);
    ChainConserves(patterns);
    ExtraProcessExact(patterns);
    NonBlankIsReady(patterns);
    forall split | IsSplit(split, NonBlank(patterns)) ensures |Chain(NonBlank(patterns))| <= |split| {
      ChainIsOptimal(NonBlank(patterns), split);
    }
  }

  // Nothing is signalled before the last process has ended.
  lemma {:induction false} QuietBefore(s: State, events: seq<Event>, cancelTests: bool)
    requires AllFit(s.patternsToDo) && s.running && s.error == NoError && s.signals == []
    requires OnlyCleanStarts(events) && |events| <= |Chain(s.patternsToDo)|
    ensures var t := AfterAll(s, events, cancelTests);
            t.signals == [] && t.running && t.error == NoError
    decreases |events|
  {
    if events != [] {
      assert events[0] in events;
      PackAdvances(s.patternsToDo);
      PackLeavesEnd(s.patternsToDo, BUDGET);
      QuietBefore(Next(s, events[0], cancelTests), events[1..], cancelTests);
    }
  }

  // A pattern that does not fit keeps the job going for ever: however many processes end,
  // it starts the next one and signals nothing.
  lemma {:induction false} NeverEnds(s: State, events: seq<Event>, cancelTests: bool)
    requires !AllFit(s.patternsToDo) && s.running && s.error == NoError && s.signals == []
    requires OnlyCleanStarts(events)
    ensures var t := AfterAll(s, events, cancelTests);
            && t.signals == [] && t.running && !AllFit(t.patternsToDo)
            && |t.started| == |s.started| + |events|
    decreases |events|
  {
    if events != [] {
      assert events[0] in events;
      TooLongIsLeft(s.patternsToDo);
      NeverEnds(Next(s, events[0], cancelTests), events[1..], cancelTests);
    }
  }

  // The job comes to an end, whatever its processes return, if and only if every pattern
  // fits a fresh command line.
  lemma EndsExact(patterns: seq<string>, cancelTests: bool)
    requires patterns != []
    ensures (exists events :: OnlyCleanStarts(events) && AfterAll(Begun(patterns), events, cancelTests).signals != [])
       <==> AllFit(patterns)
  {
    if AllFit(patterns) {
      var events := seq(|Chain(patterns)|, i => Exited(0, true, true));
      RunsTheChain(patterns, events, cancelTests);
      assert AfterAll(Begun(patterns), events, cancelTests).signals != [];
    } else {
      TooLongIsLeft(patterns);
      forall events | OnlyCleanStarts(events)
        ensures AfterAll(Begun(patterns), events, cancelTests).signals == []
      {
        NeverEnds(Begun(patterns), events, cancelTests);
      }
    }
  }

  // ---------- Cancelling

  lemma {:induction false} StoppedStays(s: State, events: seq<Event>, cancelTests: bool)
    requires !s.running || (s.error == Canceled && (cancelTests || s.patternsToDo == []))
    ensures AfterAll(s, events, cancelTests).started == s.started
    decreases |events|
  {
    if events != [] {
      StoppedStays(Next(s, events[0], cancelTests), events[1..], cancelTests);
    }
  }

  // After a cancel no process is started, whatever happens, if and only if none was running,
  // the cancel error tests true, or nothing was left to do.
  lemma CancelStopsExact(s: State, cancelTests: bool)
    ensures (forall events :: AfterAll(Next(s, Cancel, cancelTests), events, cancelTests).started == s.started)
       <==> !s.running || cancelTests || s.patternsToDo == []
  {
    var t := Next(s, Cancel, cancelTests);
    if !s.running || cancelTests || s.patternsToDo == [] {
      forall events ensures AfterAll(t, events, cancelTests).started == s.started {
        StoppedStays(t, events, cancelTests);
      }
    } else {
      var events := [Exited(0, true, true)];
      assert AfterAll(t, events, cancelTests) == Started(t, true);
      assert |AfterAll(t, events, cancelTests).started| == |s.started| + 1;
    }
  }

  // ---------- What is reported

  lemma {:induction false} EndedStays(s: State, events: seq<Event>, cancelTests: bool)
    requires !s.running
    ensures var t := AfterAll(s, events, cancelTests);
            !t.running && t.signals == s.signals
    decreases |events|
  {
    if events != [] {
      EndedStays(Next(s, events[0], cancelTests), events[1..], cancelTests);
    }
  }

  // What the exit that ends a job reports: a cancel before it, if the cancel error tests true;
  // else that the next process could not be started, if there was more to do; else the failure of
  // this exit; else the cancel, or success
  function Report(more: bool, cancelled: bool, e: Event, cancelTests: bool): Error
    requires e.Exited?
  {
    if cancelled && cancelTests then Canceled
    else if more then CannotStart
    else if !e.normalExit || e.exitCode != 0 then General
    else if cancelled then Canceled
    else NoError
  }

  // The i-th event is the exit that ends the run: there is nothing more to do, or a cancel that
  // tests true, or the next process cannot be started; and this is what is signalled.
  ghost predicate ReportsAt(
      s: State, cancelled: bool, events: seq<Event>, i: nat, signals: seq<Signal>, cancelTests: bool)
    requires i < |events|
  {
    var before := AfterAll(s, events[..i], cancelTests);
    var more, seen := before.patternsToDo != [], cancelled || Cancel in events[..i];
    && events[i].Exited? && before.running
    && !(more && events[i].startable && !(seen && cancelTests))
    && signals == [Done, Result(Report(more, seen, events[i], cancelTests))]
  }

  // One event, in a job that was cancelled or not so far
  lemma ReportStep(s: State, cancelled: bool, e: Event, cancelTests: bool)
    requires s.running && s.signals == [] && s.error == if cancelled then Canceled else NoError
    ensures var t := Next(s, e, cancelTests);
            if e.Cancel? || (s.patternsToDo != [] && e.startable && !(cancelled && cancelTests))
            then t.running && t.signals == [] && t.error == if cancelled || e.Cancel? then Canceled else NoError
            else !t.running && t.signals == [Done, Result(Report(s.patternsToDo != [], cancelled, e, cancelTests))]
  {
  }

  lemma LaterReport(
      s: State, cancelled: bool, events: seq<Event>, i: nat, signals: seq<Signal>, cancelTests: bool)
    requires events != [] && i < |events| - 1
    requires ReportsAt(Next(s, events[0], cancelTests), cancelled || events[0].Cancel?, events[1..], i, signals,
                       cancelTests)
    ensures ReportsAt(s, cancelled, events, i + 1, signals, cancelTests)
  {
    var head := events[..i + 1];
    assert head == [events[0]] + events[1..][..i];
    assert head[0] == events[0] && head[1..] == events[1..][..i];
    assert Cancel in head <==> events[0] == Cancel || Cancel in events[1..][..i];
  }

  // Every run of a job, with events of any kind in any order: while it runs nothing is signalled,
  // and where it has ended, one exit has ended it with the report above.
  lemma {:induction false} EveryRunReports(s: State, cancelled: bool, events: seq<Event>, cancelTests: bool)
    requires s.running && s.signals == [] && s.error == if cancelled then Canceled else NoError
    ensures var t := AfterAll(s, events, cancelTests);
            if t.running then t.signals == []
            else exists i: nat :: i < |events| && ReportsAt(s, cancelled, events, i, t.signals, cancelTests)
    decreases |events|
  {
    if events != [] {
      var t, rest := Next(s, events[0], cancelTests), events[1..];
      ReportStep(s, cancelled, events[0], cancelTests);
      if t.running {
        var seen := cancelled || events[0].Cancel?;
        EveryRunReports(t, seen, rest, cancelTests);
        var u := AfterAll(t, rest, cancelTests);
        if !u.running {
          var i: nat :| i < |rest| && ReportsAt(t, seen, rest, i, u.signals, cancelTests);
          LaterReport(s, cancelled, events, i, u.signals, cancelTests);
        }
      } else {
        EndedStays(t, rest, cancelTests);
        assert events[..0] == [];
        assert ReportsAt(s, cancelled, events, 0, t.signals, cancelTests);
      }
    }
  }

  // From any cancel of a running job on: it still runs, or it has signalled done and one result,
  // which is never success, and which is the cancel if the cancel error tests true.
  lemma {:induction false} CancelIsReported(s: State, events: seq<Event>, cancelTests: bool)
    requires s.running && s.signals == []
    ensures var t := AfterAll(Next(s, Cancel, cancelTests), events, cancelTests);
            if t.running then t.signals == []
            else
              && |t.signals| == 2 && t.signals[0] == Done && t.signals[1].Result?
              && t.signals[1].error != NoError
              && (cancelTests ==> t.signals[1].error == Canceled)
              && exists i: nat :: i < |events| &&
                   ReportsAt(Next(s, Cancel, cancelTests), true, events, i, t.signals, cancelTests)
  {
    EveryRunReports(Next(s, Cancel, cancelTests), true, events, cancelTests);
  }

  // With the first process not startable the job does not run, and start returns the error; with a
  // later one, the job ends with that error.
  lemma StartErrorIsReported(s: State, exitCode: int, normalExit: bool, cancelTests: bool)
    requires s.running && s.signals == [] && s.error == NoError && s.patternsToDo != []
    ensures var t := Next(s, Exited(exitCode, normalExit, false), cancelTests);
            !t.running && t.signals == [Done, Result(CannotStart)] && t.started == s.started
  {
    ReportStep(s, false, Exited(exitCode, normalExit, false), cancelTests);
  }

  // An empty list of keys, whose exit is queued: done and success, with no process started
  lemma NoKeysAtAll(cancelTests: bool)
    ensures AfterExit(State([], NoError, [], false, []), 0, true, true, cancelTests) ==
            State([], NoError, [], false, [Done, Result(NoError)])
  {
  }

  // ---------- Every run at all

  // However events are mixed, done and result are signalled together and at most once, and
  // only after the last process has ended.
  ghost predicate SignalsInOrder(s: State) {
    s.signals == [] || (!s.running && exists error :: s.signals == [Done, Result(error)])
  }

  lemma {:induction false} SignalsAtMostOnce(s: State, events: seq<Event>, cancelTests: bool)
    requires SignalsInOrder(s)
    ensures SignalsInOrder(AfterAll(s, events, cancelTests))
    decreases |events|
  {
    if events != [] {
      SignalsOnceStep(s, events[0], cancelTests);
      SignalsAtMostOnce(Next(s, events[0], cancelTests), events[1..], cancelTests);
    }
  }

  lemma SignalsOnceStep(s: State, e: Event, cancelTests: bool)
    requires SignalsInOrder(s)
    ensures SignalsInOrder(Next(s, e, cancelTests))
  {
    if s.running && s.signals == [] {
      var t := Next(s, e, cancelTests);
      if t.signals != [] {
        assert t.signals == [Done, Result(t.error)];
      }
    }
  }
}
