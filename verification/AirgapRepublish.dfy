/** When a package can be published again: exactly as long as its marker is missing, and the crash
    window in which that happens. */
module AirgapRepublish {
  import opened AirgapReplay

  /** In the continuation `more`, run `r` publishes a result for the package for the first time. */
  predicate PublishesLater(events: seq<Event>, more: seq<Event>, r: nat, key: string) {
    var w := Run(events + more);
    r !in Run(events).published && r in w.published && r in w.runs && w.runs[r].key == key
  }

  lemma {:induction false} StepKeepsKeys(w: World, e: Event, r: nat)
    requires r in w.runs
    ensures r in Step(w, e).runs && Step(w, e).runs[r].key == w.runs[r].key
    ensures w.markers <= Step(w, e).markers
  {
  }

  lemma {:induction false} StepPublishes(w: World, e: Event, r: nat)
    requires r !in w.published && r in Step(w, e).published
    ensures At(w, r, Fresh) && Step(w, e).runs[r].key == w.runs[r].key
  {
  }

  lemma {:induction false} StepKeepsMarkers(w: World, e: Event)
    ensures w.markers <= Step(w, e).markers
  {
  }

  lemma {:induction false} MarkersStay(events: seq<Event>, more: seq<Event>)
    ensures Run(events).markers <= Run(events + more).markers
  {
    hide Run, Step;
    if more == [] {
      assert events + more == events;
    } else {
      var front, e := more[..|more| - 1], more[|more| - 1];
      MarkersStay(events, front);
      assert events + more == (events + front) + [e];
      RunSnoc(events + front, e);
      StepKeepsMarkers(Run(events + front), e);
    }
  }

  /** Whoever publishes later found no marker, so there is none now. */
  lemma {:induction false} LaterPublisherFoundNoMarker(events: seq<Event>, more: seq<Event>, r: nat, key: string)
    requires PublishesLater(events, more, r, key)
    ensures key !in Run(events).markers
  {
    hide Run, Step, RunOk;
    assert events + [] == events;
    if more != [] {
      var front, e := more[..|more| - 1], more[|more| - 1];
      var w := Run(events + front);
      assert events + more == (events + front) + [e];
      RunSnoc(events + front, e);
      RunIsSafe(events + front);
      if r in w.published {
        StepKeepsKeys(w, e, r);
        LaterPublisherFoundNoMarker(events, front, r, key);
      } else {
        StepPublishes(w, e, r);
        FreshFoundNoMarker(w, r);
        MarkersStay(events, front);
      }
    }
  }

  lemma {:induction false} FreshFoundNoMarker(w: World, r: nat)
    requires Safe(w) && At(w, r, Fresh)
    ensures w.runs[r].key !in w.markers
  {
    assert RunOk(w, r);
  }

  /** Locks are held by runs that still own them. */
  ghost predicate HoldersOwn(w: World) {
    forall k :: k in w.holders ==>
      w.holders[k] in w.runs && w.runs[w.holders[k]].key == k && Owns(w.runs[w.holders[k]].phase)
  }

  lemma {:induction false} AdvanceKeepsHolders(w: World, r: nat, p: Phase)
    requires HoldersOwn(w) && r in w.runs && Owns(p)
    ensures HoldersOwn(SetPhase(w, r, p))
  {
  }

  lemma {:induction false} EndKeepsHolders(w: World, r: nat)
    requires HoldersOwn(w) && r in w.runs
    ensures HoldersOwn(End(w, r))
  {
  }

  lemma {:induction false} FilesKeepHolders(w: World, v: World)
    requires HoldersOwn(w) && v.runs == w.runs && v.holders == w.holders
    ensures HoldersOwn(v)
  {
  }

  lemma {:induction false} StepKeepsHolders(w: World, e: Event)
    requires HoldersOwn(w)
    ensures HoldersOwn(Step(w, e))
  {
    hide HoldersOwn, End;
    match e
    case Start(r, key, path) => if r !in w.runs { StartKeepsHolders(w, r, key, path); }
    case Acquire(r) => if At(w, r, Waiting) && w.runs[r].key !in w.holders { AcquireKeepsHolders(w, r); }
    case LookForMarker(r) =>
      if At(w, r, Locked) {
        EndKeepsHolders(w, r);
        AdvanceKeepsHolders(w, r, Fresh);
      }
    case LinkResult(r) =>
      if At(w, r, Fresh) && w.runs[r].resultPath !in w.results {
        AdvanceKeepsHolders(w, r, Linked);
        FilesKeepHolders(SetPhase(w, r, Linked), Step(w, e));
      }
    case BeginConsume(r) => if At(w, r, Linked) { AdvanceKeepsHolders(w, r, Consuming); }
    case WriteTemporary(r) => if At(w, r, Consuming) { AdvanceKeepsHolders(w, r, TempWritten); }
    case RenameMarker(r) =>
      if At(w, r, TempWritten) {
        AdvanceKeepsHolders(w, r, Consumed);
        FilesKeepHolders(SetPhase(w, r, Consumed), Step(w, e));
      }
    case Return(r) => if r in w.runs { EndKeepsHolders(w, r); }
    case ConsumeFails(r) =>
      if At(w, r, Consuming) || At(w, r, TempWritten) {
        EndKeepsHolders(w, r);
        FilesKeepHolders(End(w, r), Step(w, e));
      }
    case Crash(r) => if r in w.runs { EndKeepsHolders(w, r); }
  }

  lemma {:induction false} StartKeepsHolders(w: World, r: nat, key: string, path: string)
    requires HoldersOwn(w) && r !in w.runs
    ensures HoldersOwn(Step(w, Start(r, key, path)))
  {
  }

  lemma {:induction false} AcquireKeepsHolders(w: World, r: nat)
    requires HoldersOwn(w) && At(w, r, Waiting) && w.runs[r].key !in w.holders
    ensures HoldersOwn(Step(w, Acquire(r)))
  {
  }

  lemma {:induction false} RunHoldersOwn(events: seq<Event>)
    ensures HoldersOwn(Run(events))
  {
    hide Step, HoldersOwn;
    if events == [] {
      assert HoldersOwn(START) by { NobodyHolds(); }
    } else {
      RunHoldersOwn(events[..|events| - 1]);
      StepKeepsHolders(Run(events[..|events| - 1]), events[|events| - 1]);
    }
  }

  lemma {:induction false} NobodyHolds()
    ensures HoldersOwn(START)
  {
  }

  predicate AllBelow(used: set<nat>, n: nat) { forall r :: r in used ==> r < n }

  lemma {:induction false} BoundExists(used: set<nat>)
    ensures exists n: nat :: AllBelow(used, n)
  {
    if used == {} {
      assert AllBelow(used, 0);
    } else {
      var x :| x in used;
      BoundExists(used - {x});
      var m: nat :| AllBelow(used - {x}, m);
      assert forall r :: r in used ==> r == x || r in used - {x};
      assert AllBelow(used, if m > x then m else x + 1);
    }
  }

  /** The end of whoever holds the package's lock. */
  function Release(w: World, key: string): seq<Event> {
    if key in w.holders then [Crash(w.holders[key])] else []
  }

  lemma {:induction false} Released(events: seq<Event>, key: string)
    ensures var w, v := Run(events), Run(events + Release(Run(events), key));
            && key !in v.holders && v.markers == w.markers && v.results == w.results
            && v.runs.Keys == w.runs.Keys && v.published == w.published
  {
    var w := Run(events);
    RunHoldersOwn(events);
    if key in w.holders {
      RunSnoc(events, Crash(w.holders[key]));
    } else {
      assert events + [] == events;
    }
  }

  lemma {:induction false} FourSteps(events: seq<Event>, a: Event, b: Event, c: Event, d: Event)
    ensures Run(events + [a, b, c, d]) == Step(Step(Step(Step(Run(events), a), b), c), d)
  {
    hide Run, Step;
    RunSnoc(events, a);
    RunSnoc(events + [a], b);
    RunSnoc(events + [a] + [b], c);
    RunSnoc(events + [a] + [b] + [c], d);
    assert events + [a, b, c, d] == events + [a] + [b] + [c] + [d];
  }

  /** A new run whose lock is free, whose package has no marker and whose result name is unused publishes. */
  lemma {:induction false} NewRunPublishes(w: World, r: nat, key: string, path: string)
    requires r !in w.runs && key !in w.holders && key !in w.markers && path !in w.results
    ensures var v := Step(Step(Step(Step(w, Start(r, key, path)), Acquire(r)), LookForMarker(r)), LinkResult(r));
            v.published == w.published + [r] && r in v.runs && v.runs[r].key == key
  {
    var w1 := Step(w, Start(r, key, path));
    var w2 := Step(w1, Acquire(r));
    assert At(w2, r, Locked) && w2.markers == w.markers;
    var w3 := Step(w2, LookForMarker(r));
    assert At(w3, r, Fresh) && w3.results == w.results && w3.published == w.published;
  }

  /** After any run of events, crashes included, a package can still be published by someone exactly
      as long as its marker is missing. What was published before does not matter. */
  lemma {:induction false} PublishableUntilMarked(events: seq<Event>, key: string)
    ensures key !in Run(events).markers <==> exists more, r :: PublishesLater(events, more, r, key)
  {
    hide Run, Step;
    if more, r :| PublishesLater(events, more, r, key) {
      LaterPublisherFoundNoMarker(events, more, r, key);
    }
    var w := Run(events);
    if key !in w.markers {
      var release := Release(w, key);
      Released(events, key);
      RunIsSafe(events);
      var v := Run(events + release);
      var lengths: set<nat> := set p | p in w.results.Keys :: |p|;
      BoundExists(w.runs.Keys);
      BoundExists(lengths);
      var r: nat :| AllBelow(w.runs.Keys, r);
      var n: nat :| AllBelow(lengths, n);
      assert forall p :: p in w.results ==> |p| in lengths;
      var path: string := seq(n, i => 'r');
      var start := [Start(r, key, path), Acquire(r), LookForMarker(r), LinkResult(r)];
      FourSteps(events + release, start[0], start[1], start[2], start[3]);
      NewRunPublishes(v, r, key, path);
      assert events + (release + start) == (events + release) + start;
      assert PublishesLater(events, release + start, r, key);
    }
  }

  /** The window that remains: a crash between linking the result and renaming the marker leaves a
      published result and lets a second run build the same package again. */
  lemma {:induction false} CrashWindowPublishesTwice(key: string, path1: string, path2: string)
    requires path1 != path2
    ensures exists events ::
      var w := Run(events);
      w.published == [1, 2] && w.completed == [2] && w.results == map[path1 := 1, path2 := 2]
      && 1 in w.runs && 2 in w.runs && w.runs[1].key == w.runs[2].key == key
  {
    hide Step, Run, TwoRuns;
    var first := [Start(1, key, path1), Acquire(1), LookForMarker(1), LinkResult(1), Crash(1)];
    FirstRunCrashes(key, path1);
    var second := first + [Start(2, key, path2)] + [Acquire(2)] + [LookForMarker(2)] + [LinkResult(2)]
                  + [BeginConsume(2)] + [WriteTemporary(2)] + [RenameMarker(2)];
    SecondRunCompletes(first, key, path1, path2);
    TwoRunsShareKey(key, path1, path2, Consumed);
    assert Run(second).published == [1, 2];
  }

  lemma {:induction false} TwoRunsShareKey(key: string, path1: string, path2: string, phase: Phase)
    ensures var runs := TwoRuns(key, path1, path2, phase); 1 in runs && 2 in runs && runs[1].key == runs[2].key == key
  {
  }

  function Crashed(key: string, path1: string): World {
    World(map[1 := AgentRun(key, path1, Over)], map[], {}, map[path1 := 1], [1], [])
  }

  lemma {:induction false} FirstRunLocks(key: string, path1: string)
    ensures Run([Start(1, key, path1)] + [Acquire(1)]) == World(OneRun(key, path1, Locked), map[key := 1], {}, map[], [], [])
  {
    var a := [Start(1, key, path1)];
    RunSnoc([], Start(1, key, path1));
    assert [] + a == a;
    NothingRan();
    hide Run;
    assert Run(a) == World(OneRun(key, path1, Waiting), map[], {}, map[], [], []);
    RunSnoc(a, Acquire(1));
  }

  lemma {:induction false} NothingRan()
    ensures Run([]) == World(map[], map[], {}, map[], [], [])
  {
  }

  lemma {:induction false} FirstRunCrashes(key: string, path1: string)
    ensures Run([Start(1, key, path1), Acquire(1), LookForMarker(1), LinkResult(1), Crash(1)]) == Crashed(key, path1)
  {
    hide Run;
    var b := [Start(1, key, path1)] + [Acquire(1)];
    var c := b + [LookForMarker(1)];
    var d := c + [LinkResult(1)];
    FirstRunLocks(key, path1);
    RunSnoc(b, LookForMarker(1));
    assert Run(c) == World(OneRun(key, path1, Fresh), map[key := 1], {}, map[], [], []);
    RunSnoc(c, LinkResult(1));
    assert Run(d) == World(OneRun(key, path1, Linked), map[key := 1], {}, map[path1 := 1], [1], []);
    RunSnoc(d, Crash(1));
    assert Run(d + [Crash(1)]).holders == map[];
    assert [Start(1, key, path1), Acquire(1), LookForMarker(1), LinkResult(1), Crash(1)] == d + [Crash(1)];
  }

  function OneRun(key: string, path1: string, phase: Phase): map<nat, AgentRun> {
    map[1 := AgentRun(key, path1, phase)]
  }

  function TwoRuns(key: string, path1: string, path2: string, phase: Phase): map<nat, AgentRun> {
    map[1 := AgentRun(key, path1, Over), 2 := AgentRun(key, path2, phase)]
  }

  lemma {:induction false} SecondRunLocks(first: seq<Event>, key: string, path1: string, path2: string)
    requires Run(first) == Crashed(key, path1) && path1 != path2
    ensures Run(first + [Start(2, key, path2)] + [Acquire(2)])
         == World(TwoRuns(key, path1, path2, Locked), map[key := 2], {}, map[path1 := 1], [1], [])
  {
    hide Run;
    var a := first + [Start(2, key, path2)];
    RunSnoc(first, Start(2, key, path2));
    assert Run(a) == World(TwoRuns(key, path1, path2, Waiting), map[], {}, map[path1 := 1], [1], []);
    RunSnoc(a, Acquire(2));
  }

  lemma {:induction false} SecondRunLinks(first: seq<Event>, key: string, path1: string, path2: string)
    requires Run(first) == Crashed(key, path1) && path1 != path2
    ensures Run(first + [Start(2, key, path2)] + [Acquire(2)] + [LookForMarker(2)] + [LinkResult(2)])
         == World(TwoRuns(key, path1, path2, Linked), map[key := 2], {}, map[path1 := 1, path2 := 2], [1, 2], [])
  {
    hide Run;
    var b := first + [Start(2, key, path2)] + [Acquire(2)];
    var c := b + [LookForMarker(2)];
    SecondRunLocks(first, key, path1, path2);
    RunSnoc(b, LookForMarker(2));
    assert Run(c) == World(TwoRuns(key, path1, path2, Fresh), map[key := 2], {}, map[path1 := 1], [1], []);
    RunSnoc(c, LinkResult(2));
  }

  lemma {:induction false} SecondRunWrites(first: seq<Event>, key: string, path1: string, path2: string)
    requires Run(first) == World(TwoRuns(key, path1, path2, Linked), map[key := 2], {}, map[path1 := 1, path2 := 2], [1, 2], [])
    ensures Run(first + [BeginConsume(2)] + [WriteTemporary(2)])
         == World(TwoRuns(key, path1, path2, TempWritten), map[key := 2], {}, map[path1 := 1, path2 := 2], [1, 2], [])
  {
    hide Run;
    RunSnoc(first, BeginConsume(2));
    RunSnoc(first + [BeginConsume(2)], WriteTemporary(2));
    assert SetPhase(SetPhase(Run(first), 2, Consuming), 2, TempWritten).runs == TwoRuns(key, path1, path2, TempWritten);
  }

  lemma {:induction false} SecondRunCompletes(first: seq<Event>, key: string, path1: string, path2: string)
    requires Run(first) == Crashed(key, path1) && path1 != path2
    ensures Run(first + [Start(2, key, path2)] + [Acquire(2)] + [LookForMarker(2)] + [LinkResult(2)]
                + [BeginConsume(2)] + [WriteTemporary(2)] + [RenameMarker(2)])
         == World(TwoRuns(key, path1, path2, Consumed), map[key := 2], {key}, map[path1 := 1, path2 := 2], [1, 2], [2])
  {
    hide Run;
    var d := first + [Start(2, key, path2)] + [Acquire(2)] + [LookForMarker(2)] + [LinkResult(2)];
    SecondRunLinks(first, key, path1, path2);
    SecondRunWrites(d, key, path1, path2);
    RunSnoc(d + [BeginConsume(2)] + [WriteTemporary(2)], RenameMarker(2));
  }
}
