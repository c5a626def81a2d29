/** The offline build command on its state directory, as steps of a run. */
module AirgapCommand {
  import opened AirgapReplay

  function Steps(w: World, events: seq<Event>): World {
    if events == [] then w else Step(Steps(w, events[..|events| - 1]), events[|events| - 1])
  }

  lemma {:induction false} StepsSnoc(w: World, events: seq<Event>, e: Event)
    ensures Steps(w, events + [e]) == Step(Steps(w, events), e)
  {
    assert (events + [e])[..|events|] == events;
  }

  /** Continuing a run by more steps is a longer run. */
  lemma {:induction false} StepsContinueRun(events: seq<Event>, more: seq<Event>)
    ensures Run(events + more) == Steps(Run(events), more)
  {
    hide Step;
    if more == [] {
      assert events + more == events;
    } else {
      StepsContinueRun(events, more[..|more| - 1]);
      assert events + more == (events + more[..|more| - 1]) + [more[|more| - 1]];
      RunSnoc(events + more[..|more| - 1], more[|more| - 1]);
    }
  }

  /** Where a command meets an error of its own, if it does. */
  datatype Fault = NoFault | BeforeLocked | LookingForMarker | WhileBuilding | AfterLinking | BeforeTemporary | BeforeRename

  /** The agent's state directory and result files, changed in place. */
  class StateDirectory {
    var runs: map<nat, AgentRun>
    var holders: map<string, nat>
    var markers: set<string>
    var results: map<string, nat>
    var published: seq<nat>
    var completed: seq<nat>

    function View(): World
      reads this
    {
      World(runs, holders, markers, results, published, completed)
    }

    constructor ()
      ensures View() == START
    {
      runs, holders, markers, results, published, completed := map[], map[], {}, map[], [], [];
    }

    method SetRun(r: nat, p: Phase)
      requires r in runs
      modifies this`runs
      ensures View() == SetPhase(old(View()), r, p)
    {
      runs := runs[r := runs[r].(phase := p)];
    }

    /** What the other runs do while this one waits. */
    method OtherRuns(others: seq<Event>)
      modifies this
      ensures View() == Steps(old(View()), others)
    {
      var w := Steps(View(), others);
      runs, holders, markers := w.runs, w.holders, w.markers;
      results, published, completed := w.results, w.published, w.completed;
    }

    /** lockAirGappedReplay: it may fail before it holds the lock; it waits in flock while other runs
        go on, until the lock is free; and then it looks for the marker, which may fail too. */
    method Lock(r: nat, others: seq<Event>, fault: Fault) returns (ok: bool)
      requires At(View(), r, Waiting) && ByOthers(r, others)
      requires fault != BeforeLocked ==> runs[r].key !in Steps(View(), others).holders
      modifies this
      ensures View() == Steps(Steps(old(View()), others), LockEvents(r, fault))
      ensures ok <==> fault != BeforeLocked && fault != LookingForMarker && old(runs[r].key !in Steps(View(), others).markers)
      ensures if ok then At(View(), r, Fresh) else At(View(), r, Over)
      ensures runs[r].key == old(runs[r].key) && runs[r].resultPath == old(runs[r].resultPath)
      ensures SameFiles(View(), Steps(old(View()), others))
    {
      hide Steps;
      OthersKeep(View(), others, r);
      OtherRuns(others);
      LockSteps(View(), r, fault);
      if fault == BeforeLocked {
        SetRun(r, Over);
        return false;
      }
      var key := runs[r].key;
      holders := holders[key := r];
      SetRun(r, Locked);
      if fault == LookingForMarker || key in markers {
        holders := holders - {key};
        SetRun(r, Over);
        return false;
      }
      SetRun(r, Fresh);
      return true;
    }

    /** The hard link under the final name, which never overwrites, and the hash of the linked
        file, which may fail and then leaves the file there. */
    method Publish(r: nat, hashFails: bool) returns (ok: bool)
      requires At(View(), r, Fresh)
      modifies this`runs, this`results, this`published
      ensures View() == Step(old(View()), LinkResult(r))
      ensures ok <==> !hashFails && old(runs[r].resultPath !in results)
      ensures if old(runs[r].resultPath !in results) then At(View(), r, Linked) else At(View(), r, Fresh)
      ensures runs[r].key == old(runs[r].key) && runs[r].resultPath == old(runs[r].resultPath)
      ensures results == if old(runs[r].resultPath in results) then old(results) else old(results)[runs[r].resultPath := r]
    {
      var path := runs[r].resultPath;
      if path in results {
        return false;
      }
      results := results[path := r];
      published := published + [r];
      SetRun(r, Linked);
      return !hashFails;
    }

    /** consume: the marker is written to a temporary file and renamed; a failure removes the result. */
    method Consume(r: nat, fault: Fault) returns (ok: bool)
      requires At(View(), r, Linked)
      modifies this
      ensures ok <==> fault != BeforeTemporary && fault != BeforeRename
      ensures View() == Steps(old(View()), ConsumeEvents(r, fault))
      ensures if ok then At(View(), r, Consumed) else At(View(), r, Over)
      ensures markers == if ok then old(markers) + {old(runs[r].key)} else old(markers)
      ensures completed == if ok then old(completed) + [r] else old(completed)
      ensures results == if ok then old(results) else old(results) - {old(runs[r].resultPath)}
    {
      hide Step, Steps;
      ghost var was := View();
      ConsumeSteps(was, r, fault);
      SetRun(r, Consuming);
      if fault == BeforeTemporary {
        Drop(r);
        results := results - {runs[r].resultPath};
        return false;
      }
      SetRun(r, TempWritten);
      if fault == BeforeRename {
        Drop(r);
        results := results - {runs[r].resultPath};
        return false;
      }
      SetRun(r, Consumed);
      markers := markers + {runs[r].key};
      completed := completed + [r];
      return true;
    }

    method Drop(r: nat)
      requires r in runs && Owns(runs[r].phase)
      modifies this`runs, this`holders
      ensures View() == End(old(View()), r)
    {
      holders := holders - {runs[r].key};
      SetRun(r, Over);
    }

    /** close: the lock is released, the files stay. */
    method Close(r: nat)
      requires At(View(), r, Fresh) || At(View(), r, Linked) || At(View(), r, Consumed)
      modifies this`runs, this`holders
      ensures View() == Step(old(View()), Return(r)) && At(View(), r, Over)
    {
      ReturnEnds(View(), r);
      Drop(r);
    }

    /** The command from the lock to its release, without a crash: it succeeds exactly when nothing
        fails and, once the wait is over, the package is unconsumed and the result name is free; then
        the package is marked and the result is its own. The steps it takes continue any run that
        led to where it began, so every guarantee for runs holds of it. */
    method BuildCommand(r: nat, others: seq<Event>, fault: Fault) returns (ok: bool, ghost events: seq<Event>)
      requires At(View(), r, Waiting) && ByOthers(r, others)
      requires fault != BeforeLocked ==> runs[r].key !in Steps(View(), others).holders
      modifies this
      ensures View() == Steps(old(View()), events) && At(View(), r, Over) && others <= events
      ensures forall history :: old(View()) == Run(history) ==> View() == Run(history + events) && KnownRuns(View()) && OncePerKey(View())
      ensures var w, a := old(Steps(View(), others)), old(runs[r]);
              && (ok <==> fault == NoFault && a.key !in w.markers && a.resultPath !in w.results)
              && markers == (if ok then w.markers + {a.key} else w.markers)
              && completed == (if ok then w.completed + [r] else w.completed)
              && (ok ==> results == w.results[a.resultPath := r])
              && (!ok && fault != AfterLinking ==> results == w.results)
    {
      hide Step, Steps, Consumption;
      ghost var was := View();
      StepsConcat(was, others, LockEvents(r, fault));
      ok := Lock(r, others, fault);
      events := others + LockEvents(r, fault);
      if ok {
        ghost var rest;
        StepsAppend(was, events);
        ok, rest := BuildLocked(r, fault);
        events := events + rest;
      }
      forall history | was == Run(history) ensures View() == Run(history + events) && KnownRuns(View()) && OncePerKey(View()) {
        StepsContinueRun(history, events);
        ConsumedAtMostOnce(history + events);
      }
    }

    /** The command while it holds the lock. */
    method BuildLocked(r: nat, fault: Fault) returns (ok: bool, ghost events: seq<Event>)
      requires At(View(), r, Fresh) && fault != BeforeLocked && fault != LookingForMarker
      modifies this
      ensures View() == Steps(old(View()), events) && At(View(), r, Over)
      ensures ok <==> fault == NoFault && old(runs[r].resultPath !in results)
      ensures markers == if ok then old(markers) + {old(runs[r].key)} else old(markers)
      ensures completed == if ok then old(completed) + [r] else old(completed)
      ensures ok ==> results == old(results)[old(runs[r].resultPath) := r]
      ensures !ok && fault != AfterLinking ==> results == old(results)
    {
      hide Step, Steps, Consumption;
      ghost var was := View();
      events := [];
      EmptySteps(was);
      if fault == WhileBuilding {
        StepsSnoc(was, events, Return(r));
        events := events + [Return(r)];
        Close(r);
        return false, events;
      }
      StepsSnoc(was, events, LinkResult(r));
      ok := Publish(r, fault == AfterLinking);
      events := events + [LinkResult(r)];
      if !ok {
        StepsSnoc(was, events, Return(r));
        events := events + [Return(r)];
        Close(r);
        return false, events;
      }
      StepsConcat(was, events, ConsumeEvents(r, fault));
      ok := Consume(r, fault);
      events := events + ConsumeEvents(r, fault);
      if !ok {
        return;
      }
      StepsSnoc(was, events, Return(r));
      events := events + [Return(r)];
      Close(r);
    }
  }

  /** After a completed command every later command for the package fails, whatever happens between
      them: `BuildCommand` succeeds only without a marker. */
  lemma {:induction false} LaterCommandsFail(history: seq<Event>, others: seq<Event>, r: nat)
    requires r in Run(history).completed
    ensures r in Run(history).runs && Run(history).runs[r].key in Steps(Run(history), others).markers
  {
    hide Run, Steps;
    StepsContinueRun(history, others);
    ConsumptionIsPermanent(history, others, r);
  }

  /** None of the steps is taken by `r`. */
  predicate ByOthers(r: nat, others: seq<Event>) {
    forall e :: e in others ==> e.run != r
  }

  predicate SameFiles(w: World, v: World) {
    w.markers == v.markers && w.results == v.results && w.published == v.published && w.completed == v.completed
  }

  lemma {:induction false} StepOfOther(w: World, e: Event, r: nat)
    requires e.run != r && r in w.runs
    ensures r in Step(w, e).runs && Step(w, e).runs[r] == w.runs[r]
  {
  }

  /** Nobody else moves a run on. */
  lemma {:induction false} OthersKeep(w: World, others: seq<Event>, r: nat)
    requires ByOthers(r, others) && r in w.runs
    ensures r in Steps(w, others).runs && Steps(w, others).runs[r] == w.runs[r]
  {
    hide Step;
    if others != [] {
      OthersKeep(w, others[..|others| - 1], r);
      StepOfOther(Steps(w, others[..|others| - 1]), others[|others| - 1], r);
    }
  }

  function LockEvents(r: nat, fault: Fault): seq<Event> {
    if fault == BeforeLocked then [Return(r)]
    else if fault == LookingForMarker then [Acquire(r), Return(r)]
    else [Acquire(r), LookForMarker(r)]
  }

  function ConsumeEvents(r: nat, fault: Fault): seq<Event> {
    if fault == BeforeTemporary then [BeginConsume(r), ConsumeFails(r)]
    else if fault == BeforeRename then [BeginConsume(r), WriteTemporary(r), ConsumeFails(r)]
    else [BeginConsume(r), WriteTemporary(r), RenameMarker(r)]
  }

  lemma {:induction false} EmptySteps(w: World)
    ensures Steps(w, []) == w
  {
  }

  lemma {:induction false} StepsConcat(w: World, a: seq<Event>, b: seq<Event>)
    ensures Steps(w, a + b) == Steps(Steps(w, a), b)
  {
    hide Step;
    if b == [] {
      assert a + b == a;
    } else {
      StepsConcat(w, a, b[..|b| - 1]);
      assert a + b == (a + b[..|b| - 1]) + [b[|b| - 1]];
      StepsSnoc(w, a + b[..|b| - 1], b[|b| - 1]);
    }
  }

  lemma {:induction false} StepsAppend(w: World, a: seq<Event>)
    ensures forall b :: Steps(w, a + b) == Steps(Steps(w, a), b)
  {
    hide Steps;
    forall b ensures Steps(w, a + b) == Steps(Steps(w, a), b) {
      StepsConcat(w, a, b);
    }
  }

  /** What the lock steps amount to. */
  function Locking(w: World, r: nat, fault: Fault): World
    requires r in w.runs
  {
    if fault == BeforeLocked then SetPhase(w, r, Over)
    else if fault == LookingForMarker || w.runs[r].key in w.markers
    then SetPhase(SetPhase(w, r, Locked), r, Over).(holders := w.holders[w.runs[r].key := r] - {w.runs[r].key})
    else SetPhase(SetPhase(w, r, Locked), r, Fresh).(holders := w.holders[w.runs[r].key := r])
  }

  lemma {:induction false} WaitingStep(w: World, r: nat)
    requires At(w, r, Waiting)
    ensures Step(w, Return(r)) == SetPhase(w, r, Over)
    ensures w.runs[r].key !in w.holders ==>
              Step(w, Acquire(r)) == SetPhase(w, r, Locked).(holders := w.holders[w.runs[r].key := r])
  {
  }

  lemma {:induction false} LookStep(w: World, r: nat)
    requires At(w, r, Locked)
    ensures Step(w, Return(r)) == End(w, r)
    ensures Step(w, LookForMarker(r)) == if w.runs[r].key in w.markers then End(w, r) else SetPhase(w, r, Fresh)
  {
  }

  lemma {:induction false} LockSteps(w: World, r: nat, fault: Fault)
    requires At(w, r, Waiting) && (fault != BeforeLocked ==> w.runs[r].key !in w.holders)
    ensures Steps(w, LockEvents(r, fault)) == Locking(w, r, fault)
  {
    hide Step, Steps;
    EmptySteps(w);
    WaitingStep(w, r);
    var first := LockEvents(r, fault)[0];
    StepsSnoc(w, [], first);
    assert [] + [first] == [first];
    if fault == BeforeLocked {
      assert LockEvents(r, fault) == [first];
    } else {
      var look := LockEvents(r, fault)[1];
      StepsSnoc(w, [first], look);
      assert [first] + [look] == LockEvents(r, fault);
      LookStep(Step(w, first), r);
    }
  }

  lemma {:induction false} ReturnEnds(w: World, r: nat)
    requires At(w, r, Fresh) || At(w, r, Linked) || At(w, r, Consumed)
    ensures Step(w, Return(r)) == End(w, r)
  {
  }

  /** What the marker steps amount to. */
  function Consumption(w: World, r: nat, fault: Fault): World
    requires At(w, r, Linked)
  {
    if fault == BeforeTemporary || fault == BeforeRename
    then End(w, r).(results := w.results - {w.runs[r].resultPath})
    else SetPhase(w, r, Consumed).(markers := w.markers + {w.runs[r].key}, completed := w.completed + [r])
  }

  lemma {:induction false} BeginStep(w: World, r: nat)
    requires At(w, r, Linked)
    ensures Step(w, BeginConsume(r)) == SetPhase(w, r, Consuming)
  {
  }

  lemma {:induction false} WriteStep(w: World, r: nat)
    requires At(w, r, Consuming)
    ensures Step(w, WriteTemporary(r)) == SetPhase(w, r, TempWritten)
    ensures Step(w, ConsumeFails(r)) == End(w, r).(results := w.results - {w.runs[r].resultPath})
  {
  }

  lemma {:induction false} RenameStep(w: World, r: nat)
    requires At(w, r, TempWritten)
    ensures Step(w, RenameMarker(r))
         == SetPhase(w, r, Consumed).(markers := w.markers + {w.runs[r].key}, completed := w.completed + [r])
    ensures Step(w, ConsumeFails(r)) == End(w, r).(results := w.results - {w.runs[r].resultPath})
  {
  }

  /** A phase that was passed through leaves no trace. */
  lemma {:induction false} PhasesForgotten(w: World, r: nat, p: Phase, q: Phase)
    requires r in w.runs && Owns(w.runs[r].phase) && Owns(p)
    ensures SetPhase(SetPhase(w, r, p), r, q) == SetPhase(w, r, q)
    ensures End(SetPhase(w, r, p), r) == End(w, r)
    ensures At(SetPhase(w, r, p), r, p) && SetPhase(w, r, p).runs[r].key == w.runs[r].key
    ensures SetPhase(w, r, p).runs[r].resultPath == w.runs[r].resultPath && SetPhase(w, r, p).results == w.results
  {
  }

  lemma {:induction false} ConsumeSteps(w: World, r: nat, fault: Fault)
    requires At(w, r, Linked)
    ensures Steps(w, ConsumeEvents(r, fault)) == Consumption(w, r, fault)
  {
    hide Steps, Step, SetPhase, End;
    var b := SetPhase(w, r, Consuming);
    PhasesForgotten(w, r, Consuming, TempWritten);
    PhasesForgotten(w, r, TempWritten, Consumed);
    EmptySteps(w);
    StepsSnoc(w, [], BeginConsume(r));
    assert [] + [BeginConsume(r)] == [BeginConsume(r)];
    BeginStep(w, r);
    WriteStep(b, r);
    if fault == BeforeTemporary {
      StepsSnoc(w, [BeginConsume(r)], ConsumeFails(r));
      assert [BeginConsume(r)] + [ConsumeFails(r)] == [BeginConsume(r), ConsumeFails(r)];
    } else {
      var two := [BeginConsume(r), WriteTemporary(r)];
      StepsSnoc(w, [BeginConsume(r)], WriteTemporary(r));
      assert [BeginConsume(r)] + [WriteTemporary(r)] == two;
      RenameStep(SetPhase(w, r, TempWritten), r);
      MarkersUntouched(w, r, TempWritten);
      var last := if fault == BeforeRename then ConsumeFails(r) else RenameMarker(r);
      StepsSnoc(w, two, last);
      assert two + [last] == [BeginConsume(r), WriteTemporary(r), last];
    }
  }

  lemma {:induction false} MarkersUntouched(w: World, r: nat, p: Phase)
    requires r in w.runs
    ensures SetPhase(w, r, p).markers == w.markers && SetPhase(w, r, p).completed == w.completed
  {
  }
}
