// Deleting several keys, one delete job after the other (src/multideletejob.cpp).

module MultiDelete {
  import opened Text

  type Key = string

  datatype Error = NoError | Canceled | Failure(code: int)

  // Whether an error tests true. For a cancel error this is up to the error class.
  predicate Truthy(e: Error, cancelTests: bool) {
    match e
    case NoError => false
    case Canceled => cancelTests
    case Failure(_) => true
  }

  datatype Signal = Done | Result(error: Error, errorKey: Option<Key>) | Progress(current: int, total: int)

  // The outside: the running delete job reports its result (and the next one, if one is
  // wanted, reports an error on starting), or the user cancels.
  datatype Event = JobResult(error: Error, startError: Error) | Cancel

  // The job's fields, and what it has done so far
  datatype State = State(
    keys: seq<Key>,
    it: nat,
    pending: bool,  // a delete job is running
    cancelled: bool,  // there was a cancel before the end
    attempted: seq<Key>,  // the keys that a delete job was asked to delete
    signals: seq<Signal>)

  predicate WellFormed(s: State) {
    s.it <= |s.keys|
  }

  function Finish(s: State, error: Error, cancelTests: bool): State
    requires WellFormed(s)
  {
    var errorKey := if Truthy(error, cancelTests) && s.it != |s.keys| then Some(s.keys[s.it]) else None;
    s.(pending := false, signals := s.signals + [Done, Result(error, errorKey)])
  }

  function Next(s: State, e: Event, cancelTests: bool): (t: State)
    requires WellFormed(s)
    ensures WellFormed(t) && t.keys == s.keys
  {
    match e
    case Cancel => s.(it := |s.keys|, cancelled := s.cancelled || s.pending)
    case JobResult(error, startError) =>
      if !s.pending then s
      else if Truthy(error, cancelTests) || s.it == |s.keys| then Finish(s, error, cancelTests)
      else if s.it + 1 == |s.keys| then Finish(s.(it := |s.keys|), error, cancelTests)
      else
        var t := s.(it := s.it + 1, attempted := s.attempted + [s.keys[s.it + 1]]);
        if Truthy(startError, cancelTests) then Finish(t, startError, cancelTests)
        else t.(signals := s.signals + [Progress(t.it, |t.keys|)])
  }

  function AfterAll(s: State, events: seq<Event>, cancelTests: bool): (t: State)
    requires WellFormed(s)
    ensures WellFormed(t) && t.keys == s.keys
    decreases |events|
  {
    if events == [] then s else AfterAll(Next(s, events[0], cancelTests), events[1..], cancelTests)
  }

  // Right after a start: the first job runs if it reported no error.
  function Begun(keys: seq<Key>, startError: Error, cancelTests: bool): State {
    if keys == [] then State(keys, 0, false, false, [], [])
    else State(keys, 0, !Truthy(startError, cancelTests), false, [keys[0]], [])
  }

  class Job {
    const cancelTests: bool
    var mKeys: seq<Key>
    var mIt: nat
    var mJob: bool
    var attempted: seq<Key>
    var signals: seq<Signal>
    ghost var cancelled: bool

    ghost predicate Valid()
      reads this
    {
      mIt <= |mKeys|
    }

    ghost function Now(): State
      reads this
    {
      State(mKeys, mIt, mJob, cancelled, attempted, signals)
    }

    constructor (cancelTests: bool)
      ensures this.cancelTests == cancelTests && Valid()
      ensures Now() == State([], 0, false, false, [], [])
    {
      this.cancelTests := cancelTests;
      mKeys, mIt, mJob, attempted, signals, cancelled := [], 0, false, [], [], false;
    }

    method Start(keys: seq<Key>, startError: Error) returns (err: Error)
      requires Now() == State([], 0, false, false, [], [])
      modifies this
      ensures Valid() && Now() == Begun(keys, startError, cancelTests)
      ensures err == if keys == [] then NoError else startError
    {
      mKeys := keys;
      mIt := 0;
      err := StartAJob(startError);
    }

    method StartAJob(startError: Error) returns (err: Error)
      requires Valid()
      modifies `mJob, `attempted
      ensures mIt == |mKeys| ==> Now() == old(Now()) && err == NoError
      ensures mIt < |mKeys| ==>
                && Now() == old(Now()).(pending := !Truthy(startError, cancelTests),
                                        attempted := old(attempted) + [mKeys[mIt]])
                && err == startError
    {
      if mIt == |mKeys| {
        return NoError;
      }
      attempted := attempted + [mKeys[mIt]];
      mJob := !Truthy(startError, cancelTests);
      err := startError;
    }

    method SlotCancel()
      requires Valid()
      modifies `mIt, `cancelled
      ensures Valid() && Now() == Next(old(Now()), Cancel, cancelTests)
    {
      cancelled := cancelled || mJob;
      mIt := |mKeys|;
    }

    method Report(error: Error)
      requires Valid() && !mJob
      modifies `signals
      ensures Valid() && Now() == Finish(old(Now()), error, cancelTests)
    {
      signals := signals + [Done];
      var errorKey := if Truthy(error, cancelTests) && mIt != |mKeys| then Some(mKeys[mIt]) else None;
      signals := signals + [Result(error, errorKey)];
    }

    method SlotResult(err: Error, startError: Error)
      requires Valid() && mJob
      modifies this
      ensures Valid() && Now() == Next(old(Now()), JobResult(err, startError), cancelTests)
    {
      mJob := false;
      if Truthy(err, cancelTests) || mIt == |mKeys| {
        Report(err);
        return;
      }
      mIt := mIt + 1;
      if mIt == |mKeys| {
        Report(err);
        return;
      }
      var error := StartAJob(startError);
      if Truthy(error, cancelTests) {
        Report(error);
        return;
      }
      signals := signals + [Progress(mIt, |mKeys|)];
    }

    // The event loop: results come only from running jobs.
    method Run(events: seq<Event>)
      requires Valid()
      modifies this
      ensures Valid() && Now() == AfterAll(old(Now()), events, cancelTests)
    {
      var i := 0;
      while i < |events|
        invariant 0 <= i <= |events| && Valid()
        invariant AfterAll(Now(), events[i..], cancelTests) == AfterAll(old(Now()), events, cancelTests)
      {
        assert events[i..][0] == events[i] && events[i..][1..] == events[i + 1..];
        match events[i] {
          case Cancel =>
            SlotCancel();
          case JobResult(error, startError) =>
            if mJob {
              SlotResult(error, startError);
            }
        }
        i := i + 1;
      }
    }
  }

  // ---------- Every run

  // The progress reports from 1 to m
  function ProgressUpTo(m: nat, total: nat): (r: seq<Signal>)
    ensures |r| == m
  {
    seq(m, i => Progress(i + 1, total))
  }

  // While a job runs: the keys up to this one have been attempted, in order and each once,
  // and every start but the first has been reported.
  predicate InProgress(s: State) {
    var a := |s.attempted|;
    && s.pending
    && 0 < a <= |s.keys| && s.attempted == s.keys[..a]
    && s.signals == ProgressUpTo(a - 1, |s.keys|)
    && (if s.cancelled then s.it == |s.keys| else s.it == a - 1)
  }

  // At the end: done and one result. It names a key just when there is a true error and was
  // no cancel, and then the last key attempted; and without both all keys have been attempted.
  predicate Ended(s: State, cancelTests: bool) {
    var a, n := |s.attempted|, |s.signals|;
    && !s.pending
    && 0 < a <= |s.keys| && s.attempted == s.keys[..a]
    && n >= 2 && s.signals[n - 2] == Done && s.signals[n - 1].Result?
    && (s.signals[..n - 2] == ProgressUpTo(a - 1, |s.keys|)
        || (a >= 2 && s.signals[..n - 2] == ProgressUpTo(a - 2, |s.keys|)))
    && var result := s.signals[n - 1];
       && result.errorKey == (if Truthy(result.error, cancelTests) && !s.cancelled then Some(s.keys[a - 1]) else None)
       && (!Truthy(result.error, cancelTests) && !s.cancelled ==> s.attempted == s.keys)
  }

  predicate InOrder(s: State, cancelTests: bool) {
    InProgress(s) || Ended(s, cancelTests)
  }

  // A result without an error, with another key to go and a job that starts
  lemma GoesOn(s: State, e: Event, cancelTests: bool)
    requires WellFormed(s) && InProgress(s) && e.JobResult?
    requires Next(s, e, cancelTests).pending
    ensures InProgress(Next(s, e, cancelTests))
  {
    var a, t := |s.attempted|, Next(s, e, cancelTests);
    NextKey(s.keys, a);
    assert ProgressUpTo(a - 1, |s.keys|) + [Progress(a, |s.keys|)] == ProgressUpTo(a, |s.keys|);
  }

  lemma NextKey(keys: seq<Key>, a: nat)
    requires a < |keys|
    ensures keys[..a] + [keys[a]] == keys[..a + 1]
  {
  }

  // The last result, from a state in which these keys have been attempted
  lemma FinishInOrder(s: State, error: Error, cancelTests: bool)
    requires WellFormed(s) && 0 < |s.attempted| <= |s.keys| && s.attempted == s.keys[..|s.attempted|]
    requires s.signals == ProgressUpTo(|s.attempted| - 1, |s.keys|)
          || (|s.attempted| >= 2 && s.signals == ProgressUpTo(|s.attempted| - 2, |s.keys|))
    requires Truthy(error, cancelTests) && !s.cancelled ==> s.it == |s.attempted| - 1
    requires s.cancelled ==> s.it == |s.keys|
    requires !Truthy(error, cancelTests) && !s.cancelled ==> |s.attempted| == |s.keys|
    ensures Ended(Finish(s, error, cancelTests), cancelTests)
  {
    var t := Finish(s, error, cancelTests);
    var n := |t.signals|;
    assert t.signals[..n - 2] == s.signals;
    assert s.keys[..|s.keys|] == s.keys;
  }

  // A result that ends the job
  lemma EndsInOrder(s: State, e: Event, cancelTests: bool)
    requires WellFormed(s) && InProgress(s) && e.JobResult?
    requires !Next(s, e, cancelTests).pending
    ensures Ended(Next(s, e, cancelTests), cancelTests)
  {
    var a := |s.attempted|;
    if Truthy(e.error, cancelTests) || s.it == |s.keys| {
      FinishInOrder(s, e.error, cancelTests);
    } else if s.it + 1 == |s.keys| {
      FinishInOrder(s.(it := |s.keys|), e.error, cancelTests);
    } else {
      NextKey(s.keys, a);
      FinishInOrder(s.(it := a, attempted := s.attempted + [s.keys[a]]), e.startError, cancelTests);
    }
  }

  lemma CancelInOrder(s: State, cancelTests: bool)
    requires WellFormed(s) && InOrder(s, cancelTests)
    ensures InOrder(Next(s, Cancel, cancelTests), cancelTests)
  {
    if InProgress(s) {
      assert InProgress(Next(s, Cancel, cancelTests));
    } else {
      assert Ended(Next(s, Cancel, cancelTests), cancelTests);
    }
  }

  lemma StepInOrder(s: State, e: Event, cancelTests: bool)
    requires WellFormed(s) && InOrder(s, cancelTests)
    ensures InOrder(Next(s, e, cancelTests), cancelTests)
  {
    if e.Cancel? {
      CancelInOrder(s, cancelTests);
    } else if !s.pending {
      assert Next(s, e, cancelTests) == s;
    } else if Next(s, e, cancelTests).pending {
      GoesOn(s, e, cancelTests);
    } else {
      EndsInOrder(s, e, cancelTests);
    }
  }

  // In every run whose first start succeeds, with events in any order.
  lemma {:induction false} RunInOrder(s: State, events: seq<Event>, cancelTests: bool)
    requires WellFormed(s) && InOrder(s, cancelTests)
    ensures InOrder(AfterAll(s, events, cancelTests), cancelTests)
    decreases |events|
  {
    if events != [] {
      StepInOrder(s, events[0], cancelTests);
      RunInOrder(Next(s, events[0], cancelTests), events[1..], cancelTests);
    }
  }

  lemma WholeRun(keys: seq<Key>, startError: Error, events: seq<Event>, cancelTests: bool)
    requires keys != [] && !Truthy(startError, cancelTests)
    ensures InOrder(AfterAll(Begun(keys, startError, cancelTests), events, cancelTests), cancelTests)
  {
    var s := Begun(keys, startError, cancelTests);
    assert s.attempted == keys[..1] && s.signals == ProgressUpTo(0, |keys|);
    RunInOrder(s, events, cancelTests);
  }

  // After a cancel nothing more is attempted.
  lemma {:induction false} NothingAfterCancel(s: State, events: seq<Event>, cancelTests: bool)
    requires WellFormed(s) && (s.it == |s.keys| || !s.pending)
    ensures AfterAll(s, events, cancelTests).attempted == s.attempted
    decreases |events|
  {
    if events != [] {
      NothingAfterCancel(Next(s, events[0], cancelTests), events[1..], cancelTests);
    }
  }

  lemma CancelStops(s: State, events: seq<Event>, cancelTests: bool)
    requires WellFormed(s)
    ensures AfterAll(Next(s, Cancel, cancelTests), events, cancelTests).attempted == s.attempted
  {
    NothingAfterCancel(Next(s, Cancel, cancelTests), events, cancelTests);
  }

  // ---------- What is reported

  // The report of the result that ends a job, after these attempts: nothing else goes with a
  // cancel; a failure goes with the key it happened to, and so does a cancel error that tests
  // true; after the last key the last error; else the error of the next start, with that key
  function Report(keys: seq<Key>, attempts: nat, cancelled: bool, error: Error, startError: Error, cancelTests: bool)
    : Signal
    requires 0 < attempts <= |keys|
  {
    if cancelled then Result(error, None)
    else if error.Failure? || (error.Canceled? && cancelTests) then Result(error, Some(keys[attempts - 1]))
    else if attempts == |keys| then Result(error, None)
    else Result(startError, Some(keys[attempts]))
  }

  predicate StartFails(startError: Error, cancelTests: bool) {
    startError.Failure? || (startError.Canceled? && cancelTests)
  }

  // Whether a job goes on after a result
  predicate GoesOnAfter(
      keys: seq<Key>, attempts: nat, cancelled: bool, error: Error, startError: Error, cancelTests: bool)
  {
    && !cancelled && attempts < |keys|
    && !(error.Failure? || (error.Canceled? && cancelTests)) && !StartFails(startError, cancelTests)
  }

  // Each result either starts the job for the next key, and counts on, or ends with this report.
  lemma {:induction false} ResultExact(s: State, error: Error, startError: Error, cancelTests: bool)
    requires WellFormed(s) && InProgress(s)
    ensures var a, t := |s.attempted|, Next(s, JobResult(error, startError), cancelTests);
            if GoesOnAfter(s.keys, a, s.cancelled, error, startError, cancelTests) then
              t.pending && t.attempted == s.keys[..a + 1] && t.signals == s.signals + [Progress(a, |s.keys|)]
            else
              && !t.pending
              && t.signals == s.signals + [Done, Report(s.keys, a, s.cancelled, error, startError, cancelTests)]
  {
    if |s.attempted| < |s.keys| {
      NextKey(s.keys, |s.attempted|);
    }
  }

  // The i-th event is the result that ends the run, and this is the last that is signalled.
  ghost predicate EndsAt(s: State, events: seq<Event>, i: nat, t: State, cancelTests: bool)
    requires WellFormed(s) && i < |events|
  {
    var u := AfterAll(s, events[..i], cancelTests);
    var a, e := |u.attempted|, events[i];
    && InProgress(u) && e.JobResult?
    && !GoesOnAfter(u.keys, a, u.cancelled, e.error, e.startError, cancelTests)
    && t.signals == u.signals + [Done, Report(u.keys, a, u.cancelled, e.error, e.startError, cancelTests)]
  }

  lemma {:induction false} EndedStays(s: State, events: seq<Event>, cancelTests: bool)
    requires WellFormed(s) && !s.pending
    ensures var t := AfterAll(s, events, cancelTests);
            !t.pending && t.signals == s.signals
    decreases |events|
  {
    if events != [] {
      EndedStays(Next(s, events[0], cancelTests), events[1..], cancelTests);
    }
  }

  lemma EndsLater(s: State, events: seq<Event>, i: nat, t: State, cancelTests: bool)
    requires WellFormed(s) && events != [] && i < |events| - 1
    requires EndsAt(Next(s, events[0], cancelTests), events[1..], i, t, cancelTests)
    ensures EndsAt(s, events, i + 1, t, cancelTests)
  {
    var head := events[..i + 1];
    assert head[0] == events[0] && head[1..] == events[1..][..i];
  }

  // In every run a job that has ended was ended by one result, with that report.
  lemma {:induction false} EveryRunReports(s: State, events: seq<Event>, cancelTests: bool)
    requires WellFormed(s) && InProgress(s)
    ensures var t := AfterAll(s, events, cancelTests);
            t.pending || exists i: nat :: i < |events| && EndsAt(s, events, i, t, cancelTests)
    decreases |events|
  {
    if events != [] {
      var u, rest := Next(s, events[0], cancelTests), events[1..];
      var t := AfterAll(u, rest, cancelTests);
      StepInOrder(s, events[0], cancelTests);
      if u.pending {
        EveryRunReports(u, rest, cancelTests);
        if !t.pending {
          var i: nat :| i < |rest| && EndsAt(u, rest, i, t, cancelTests);
          EndsLater(s, events, i, t, cancelTests);
        }
      } else {
        ResultExact(s, events[0].error, events[0].startError, cancelTests);
        EndedStays(u, rest, cancelTests);
        assert events[..0] == [];
        assert EndsAt(s, events, 0, t, cancelTests);
      }
    }
  }
}
