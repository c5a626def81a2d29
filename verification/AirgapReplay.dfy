/** One-time consumption of AIR_GAPPED task packages: an exclusive file lock and a marker file per
    package, used by any number of agent runs that interleave and crash at any step. */
module AirgapReplay {
  import opened Text
  import opened AirgapManifest

  // ------------------------------------------------------------------- keys

  /** The text whose SHA-256 names the lock and the marker. */
  function KeyText(code: string, nonce: string): string {
    code + "\0" + nonce
  }

  /** Identifiers hold no NUL, so the joined text determines both of them, and packages share a
      lock and a marker exactly when they are the same, unless SHA-256 collides on their texts. */
  lemma {:induction false} KeysAreDistinct(sha256: string -> string, code1: string, nonce1: string, code2: string, nonce2: string)
    requires IsIdentifier(code1) && IsIdentifier(nonce1) && IsIdentifier(code2) && IsIdentifier(nonce2)
    requires sha256(KeyText(code1, nonce1)) == sha256(KeyText(code2, nonce2)) ==> KeyText(code1, nonce1) == KeyText(code2, nonce2)
    ensures sha256(KeyText(code1, nonce1)) == sha256(KeyText(code2, nonce2)) <==> code1 == code2 && nonce1 == nonce2
  {
    if KeyText(code1, nonce1) == KeyText(code2, nonce2) {
      FirstSeparatorUnique(code1, nonce1, code2, nonce2, '\0');
    }
  }

  // ---------------------------------------------------------------- the runs

  /** Where a run stands. A run owns its key's lock from Locked to Consumed. */
  datatype Phase =
    | Waiting       // before flock returns
    | Locked        // lock held, marker not looked at yet
    | Fresh         // no marker was there; extracting, building, signing
    | Linked        // the result package is on disk under its final name
    | Consuming     // about to write the marker
    | TempWritten   // marker content in the temporary file
    | Consumed      // marker renamed into place
    | Over          // returned or crashed

  datatype AgentRun = AgentRun(key: string, resultPath: string, phase: Phase)

  datatype World = World(
    runs: map<nat, AgentRun>,
    holders: map<string, nat>,   // who owns the lock of a key
    markers: set<string>,        // keys whose marker file exists
    results: map<string, nat>,   // result files on disk and the run that linked them
    published: seq<nat>,         // runs that linked a result, in order
    completed: seq<nat>)         // runs that completed consume, in order

  const START := World(map[], map[], {}, map[], [], [])

  datatype Event =
    | Start(run: nat, key: string, resultPath: string)
    | Acquire(run: nat)
    | LookForMarker(run: nat)
    | LinkResult(run: nat)
    | BeginConsume(run: nat)
    | WriteTemporary(run: nat)
    | RenameMarker(run: nat)
    | Return(run: nat)           // also any error return before the marker is attempted
    | ConsumeFails(run: nat)     // removes the result package again
    | Crash(run: nat)            // the kernel drops the lock, files stay

  predicate Owns(p: Phase) { !p.Waiting? && !p.Over? }

  function SetPhase(w: World, r: nat, p: Phase): World
    requires r in w.runs
  {
    w.(runs := w.runs[r := w.runs[r].(phase := p)])
  }

  function End(w: World, r: nat): World
    requires r in w.runs
  {
    var ended := SetPhase(w, r, Over);
    if Owns(w.runs[r].phase) then ended.(holders := w.holders - {w.runs[r].key}) else ended
  }

  predicate At(w: World, r: nat, p: Phase) { r in w.runs && w.runs[r].phase == p }

  /** One step; an event that is not possible in the current state changes nothing. */
  function Step(w: World, e: Event): World {
    match e
    case Start(r, key, path) =>
      if r in w.runs then w else w.(runs := w.runs[r := AgentRun(key, path, Waiting)])
    case Acquire(r) =>
      if At(w, r, Waiting) && w.runs[r].key !in w.holders
      then SetPhase(w, r, Locked).(holders := w.holders[w.runs[r].key := r]) else w
    case LookForMarker(r) =>
      if !At(w, r, Locked) then w
      else if w.runs[r].key in w.markers then End(w, r)
      else SetPhase(w, r, Fresh)
    case LinkResult(r) =>
      if At(w, r, Fresh) && w.runs[r].resultPath !in w.results
      then SetPhase(w, r, Linked).(results := w.results[w.runs[r].resultPath := r], published := w.published + [r]) else w
    case BeginConsume(r) =>
      if At(w, r, Linked) then SetPhase(w, r, Consuming) else w
    case WriteTemporary(r) =>
      if At(w, r, Consuming) then SetPhase(w, r, TempWritten) else w
    case RenameMarker(r) =>
      if At(w, r, TempWritten)
      then SetPhase(w, r, Consumed).(markers := w.markers + {w.runs[r].key}, completed := w.completed + [r]) else w
    case Return(r) =>
      if At(w, r, Locked) || At(w, r, Fresh) || At(w, r, Linked) || At(w, r, Consumed) || At(w, r, Waiting) then End(w, r) else w
    case ConsumeFails(r) =>
      if At(w, r, Consuming) || At(w, r, TempWritten)
      then End(w, r).(results := w.results - {w.runs[r].resultPath}) else w
    case Crash(r) =>
      if r in w.runs && !w.runs[r].phase.Over? then End(w, r) else w
  }

  function Run(events: seq<Event>): World {
    if events == [] then START else Step(Run(events[..|events| - 1]), events[|events| - 1])
  }

  /** A run past the marker check that has not written the marker yet. */
  predicate Building(p: Phase) { p.Fresh? || p.Linked? || p.Consuming? || p.TempWritten? }

  predicate HasLinked(p: Phase) { p.Linked? || p.Consuming? || p.TempWritten? }

  predicate OwnResultOnDisk(w: World, r: nat)
    requires r in w.runs
  {
    w.runs[r].resultPath in w.results && w.results[w.runs[r].resultPath] == r
  }

  /** What the files and the lock say about one run. */
  predicate RunOk(w: World, r: nat)
    requires r in w.runs
  {
    var a := w.runs[r];
    && (Owns(a.phase) ==> a.key in w.holders && w.holders[a.key] == r)
    && (Building(a.phase) ==> a.key !in w.markers)
    && (HasLinked(a.phase) ==> OwnResultOnDisk(w, r) && r in w.published)
    && (r in w.published ==> HasLinked(a.phase) || a.phase.Consumed? || a.phase.Over?)
    && (a.phase.Consumed? ==> r in w.completed)
    && (r in w.completed ==> (a.phase.Consumed? || a.phase.Over?) && a.key in w.markers && OwnResultOnDisk(w, r) && r in w.published)
  }

  ghost predicate KnownRuns(w: World) {
    && (forall r :: r in w.published ==> r in w.runs)
    && (forall r :: r in w.completed ==> r in w.runs)
    && (forall k :: k in w.holders ==> w.holders[k] in w.runs && w.runs[w.holders[k]].key == k)
    && (forall k :: k in w.markers ==> exists r :: r in w.completed && w.runs[r].key == k)
  }

  ghost predicate OncePerKey(w: World)
    requires forall r :: r in w.completed ==> r in w.runs
  {
    forall i, j :: 0 <= i < j < |w.completed| ==> w.runs[w.completed[i]].key != w.runs[w.completed[j]].key
  }

  /** When two runs published for one key, the earlier one is over and never completed. */
  ghost predicate Superseded(w: World)
    requires forall r :: r in w.published ==> r in w.runs
  {
    forall i, j :: 0 <= i < j < |w.published| && w.runs[w.published[i]].key == w.runs[w.published[j]].key ==>
      w.runs[w.published[i]].phase.Over? && w.published[i] !in w.completed
  }

  ghost predicate Safe(w: World) {
    KnownRuns(w) && (forall r :: r in w.runs ==> RunOk(w, r)) && OncePerKey(w) && Superseded(w)
  }

  lemma {:induction false} SafeStart(w: World, r: nat, key: string, path: string)
    requires Safe(w) && r !in w.runs
    ensures Safe(w.(runs := w.runs[r := AgentRun(key, path, Waiting)]))
  {
    var v := w.(runs := w.runs[r := AgentRun(key, path, Waiting)]);
    forall s | s in v.runs ensures RunOk(v, s) {
      if s != r {
        assert RunOk(w, s);
      }
    }
  }

  /** The steps that only move one run on: no lock, marker or result changes. */
  lemma {:induction false} SafeAdvance(w: World, r: nat, p: Phase)
    requires Safe(w) && r in w.runs && Owns(w.runs[r].phase) && r !in w.completed
    requires p.Fresh? || HasLinked(p)
    requires p.Fresh? ==> w.runs[r].phase.Locked? && w.runs[r].key !in w.markers
    requires HasLinked(p) ==> HasLinked(w.runs[r].phase)
    ensures Safe(SetPhase(w, r, p))
  {
    var v := SetPhase(w, r, p);
    assert RunOk(w, r);
    forall s | s in v.runs ensures RunOk(v, s) {
      assert RunOk(w, s);
    }
  }

  lemma {:induction false} SafeAcquire(w: World, r: nat)
    requires Safe(w) && r in w.runs && w.runs[r].phase.Waiting? && w.runs[r].key !in w.holders
    ensures Safe(SetPhase(w, r, Locked).(holders := w.holders[w.runs[r].key := r]))
  {
    var v := SetPhase(w, r, Locked).(holders := w.holders[w.runs[r].key := r]);
    assert RunOk(w, r);
    forall s | s in v.runs ensures RunOk(v, s) {
      assert RunOk(w, s);
    }
  }

  lemma {:induction false} EndedRunOk(w: World, r: nat, s: nat)
    requires (forall x :: x in w.runs ==> RunOk(w, x)) && r in w.runs && s in w.runs
    ensures RunOk(End(w, r), s)
  {
    assert RunOk(w, s) && RunOk(w, r);
  }

  lemma {:induction false} SafeEnd(w: World, r: nat)
    requires Safe(w) && r in w.runs
    ensures Safe(End(w, r))
  {
    hide RunOk;
    var v := End(w, r);
    forall s | s in v.runs ensures RunOk(v, s) {
      EndedRunOk(w, r, s);
    }
    EndKeepsFiles(w, r);
  }

  lemma {:induction false} SafeUnlink(w: World, r: nat)
    requires Safe(w) && r in w.runs && w.runs[r].phase.Over? && OwnResultOnDisk(w, r) && r !in w.completed
    ensures Safe(w.(results := w.results - {w.runs[r].resultPath}))
  {
    var v := w.(results := w.results - {w.runs[r].resultPath});
    forall s | s in v.runs ensures RunOk(v, s) {
      assert RunOk(w, s);
    }
  }

  function AfterLink(w: World, r: nat): World
    requires r in w.runs
  {
    SetPhase(w, r, Linked).(results := w.results[w.runs[r].resultPath := r], published := w.published + [r])
  }

  lemma {:induction false} LinkedRunsOk(w: World, r: nat)
    requires Safe(w) && r in w.runs && w.runs[r].phase.Fresh? && w.runs[r].resultPath !in w.results
    ensures forall s :: s in AfterLink(w, r).runs ==> RunOk(AfterLink(w, r), s)
  {
    hide KnownRuns, OncePerKey, Superseded;
    var v := AfterLink(w, r);
    assert RunOk(w, r);
    forall s | s in v.runs ensures RunOk(v, s) {
      assert RunOk(w, s);
    }
  }

  /** Whoever published for the package before a fresh run is over and did not complete. */
  lemma {:induction false} EarlierPublisherIsOver(w: World, r: nat, p: nat)
    requires Safe(w) && r in w.runs && w.runs[r].phase.Fresh? && p in w.published && w.runs[p].key == w.runs[r].key
    ensures w.runs[p].phase.Over? && p !in w.completed && p != r
  {
    hide OncePerKey, Superseded;
    assert RunOk(w, r) && RunOk(w, p);
  }

  lemma {:induction false} SafeLink(w: World, r: nat)
    requires Safe(w) && r in w.runs && w.runs[r].phase.Fresh? && w.runs[r].resultPath !in w.results
    ensures Safe(AfterLink(w, r))
  {
    hide RunOk;
    LinkedRunsOk(w, r);
    forall p | p in w.published && w.runs[p].key == w.runs[r].key
      ensures w.runs[p].phase.Over? && p !in w.completed && p != r
    {
      EarlierPublisherIsOver(w, r, p);
    }
    assert forall i :: 0 <= i < |w.published| ==> w.published[i] in w.published;
    assert FreshIsUnpublished(w, r) by { FreshUnpublished(w, r); }
  }

  predicate FreshIsUnpublished(w: World, r: nat) { r !in w.published && r !in w.completed }

  lemma {:induction false} FreshUnpublished(w: World, r: nat)
    requires Safe(w) && r in w.runs && w.runs[r].phase.Fresh?
    ensures FreshIsUnpublished(w, r)
  {
    assert RunOk(w, r);
  }

  lemma {:induction false} SafeRename(w: World, r: nat)
    requires Safe(w) && r in w.runs && w.runs[r].phase.TempWritten?
    ensures Safe(SetPhase(w, r, Consumed).(markers := w.markers + {w.runs[r].key}, completed := w.completed + [r]))
  {
    var v := SetPhase(w, r, Consumed).(markers := w.markers + {w.runs[r].key}, completed := w.completed + [r]);
    assert RunOk(w, r);
    forall s | s in v.runs ensures RunOk(v, s) {
      assert RunOk(w, s);
    }
    forall i | 0 <= i < |w.completed| ensures w.runs[w.completed[i]].key != w.runs[r].key {
      assert w.completed[i] in w.completed && RunOk(w, w.completed[i]);
    }
    assert r in v.completed;
    forall k | k in v.markers ensures exists s :: s in v.completed && v.runs[s].key == k {
      if k in w.markers {
        var s :| s in w.completed && w.runs[s].key == k;
        assert s in v.completed;
      }
    }
    forall i, j | 0 <= i < j < |v.published| && v.runs[v.published[i]].key == v.runs[v.published[j]].key
      ensures v.runs[v.published[i]].phase.Over? && v.published[i] !in v.completed
    {
      assert w.runs[w.published[i]].phase.Over?;
    }
  }

  lemma {:induction false} StepKeepsSafe(w: World, e: Event)
    requires Safe(w)
    ensures Safe(Step(w, e))
  {
    hide Safe, End;
    match e
    case Start(r, key, path) => if r !in w.runs { SafeStart(w, r, key, path); }
    case Acquire(r) => if At(w, r, Waiting) && w.runs[r].key !in w.holders { SafeAcquire(w, r); }
    case LookForMarker(r) =>
      if At(w, r, Locked) {
        if w.runs[r].key in w.markers { SafeEnd(w, r); } else { Unfinished(w, r); SafeAdvance(w, r, Fresh); }
      }
    case LinkResult(r) => if At(w, r, Fresh) && w.runs[r].resultPath !in w.results { SafeLink(w, r); }
    case BeginConsume(r) => if At(w, r, Linked) { Unfinished(w, r); SafeAdvance(w, r, Consuming); }
    case WriteTemporary(r) => if At(w, r, Consuming) { Unfinished(w, r); SafeAdvance(w, r, TempWritten); }
    case RenameMarker(r) => if At(w, r, TempWritten) { SafeRename(w, r); }
    case Return(r) => if r in w.runs { SafeEnd(w, r); }
    case ConsumeFails(r) =>
      if At(w, r, Consuming) || At(w, r, TempWritten) {
        Unfinished(w, r);
        SafeEnd(w, r);
        EndKeepsFiles(w, r);
        SafeUnlink(End(w, r), r);
      }
    case Crash(r) => if r in w.runs { SafeEnd(w, r); }
  }

  lemma {:induction false} Unfinished(w: World, r: nat)
    requires Safe(w) && r in w.runs
    ensures Building(w.runs[r].phase) || w.runs[r].phase.Locked? ==> r !in w.completed
    ensures HasLinked(w.runs[r].phase) ==> OwnResultOnDisk(w, r)
  {
    assert RunOk(w, r);
  }

  lemma {:induction false} EndKeepsFiles(w: World, r: nat)
    requires r in w.runs
    ensures var v := End(w, r);
            r in v.runs && v.runs[r] == w.runs[r].(phase := Over) && v.results == w.results && v.completed == w.completed
  {
  }

  lemma {:induction false} RunIsSafe(events: seq<Event>)
    ensures Safe(Run(events))
  {
    hide Safe, Step;
    if events != [] {
      RunIsSafe(events[..|events| - 1]);
      StepKeepsSafe(Run(events[..|events| - 1]), events[|events| - 1]);
    } else {
      StartIsSafe();
    }
  }

  lemma {:induction false} StartIsSafe()
    ensures Safe(START)
  {
  }

  lemma {:induction false} RunSnoc(events: seq<Event>, e: Event)
    ensures Run(events + [e]) == Step(Run(events), e)
  {
    assert (events + [e])[..|events|] == events;
  }

  // --------------------------------------------------------------- guarantees

  /** In every interleaving, crashes included, at most one run per package completes consume, at
      most one run at a time is past the marker check, and no run is past it once the package has
      been consumed. */
  lemma {:induction false} ConsumedAtMostOnce(events: seq<Event>)
    ensures
      var w := Run(events);
      && KnownRuns(w) && OncePerKey(w)
      && (forall r, s :: r in w.runs && s in w.runs && r != s && Building(w.runs[r].phase) && Building(w.runs[s].phase)
            ==> w.runs[r].key != w.runs[s].key)
      && (forall r, s :: r in w.completed && s in w.runs && Building(w.runs[s].phase) ==> w.runs[r].key != w.runs[s].key)
  {
    RunIsSafe(events);
    var w := Run(events);
    assert forall r :: r in w.runs ==> RunOk(w, r);
  }

  lemma {:induction false} CompletionSurvivesStep(w: World, e: Event, r: nat)
    requires r in w.completed && r in w.runs
    ensures var v := Step(w, e);
            r in v.completed && r in v.runs && v.runs[r].key == w.runs[r].key
  {
  }

  /** A consumed package stays consumed in every continuation, and its result file stays the one
      its run linked. */
  lemma {:induction false} ConsumptionIsPermanent(events: seq<Event>, more: seq<Event>, r: nat)
    requires r in Run(events).completed
    ensures
      var w := Run(events + more);
      && r in w.completed && r in w.runs && r in Run(events).runs && w.runs[r].key == Run(events).runs[r].key
      && w.runs[r].key in w.markers && OwnResultOnDisk(w, r)
  {
    hide Safe, Step;
    if more == [] {
      assert events + more == events;
    } else {
      var front, e := more[..|more| - 1], more[|more| - 1];
      ConsumptionIsPermanent(events, front, r);
      assert events + more == (events + front) + [e];
      RunSnoc(events + front, e);
      RunIsSafe(events + front);
      CompletedRunIsOk(Run(events + front), r);
      CompletionSurvivesStep(Run(events + front), e, r);
    }
    RunIsSafe(events + more);
    CompletedRunIsOk(Run(events + more), r);
  }

  lemma {:induction false} CompletedRunIsOk(w: World, r: nat)
    requires Safe(w) && r in w.completed
    ensures r in w.runs && w.runs[r].key in w.markers && OwnResultOnDisk(w, r)
  {
    assert RunOk(w, r);
  }

  /** Two results for one package can only be published if the earlier run never completed. */
  lemma {:induction false} EarlierPublisherDidNotComplete(events: seq<Event>, i: nat, j: nat)
    requires i < j < |Run(events).published|
    ensures var w := Run(events);
            var earlier, later := w.published[i], w.published[j];
            && earlier in w.runs && later in w.runs
            && (w.runs[earlier].key == w.runs[later].key ==> w.runs[earlier].phase.Over? && earlier !in w.completed)
  {
    hide Run, RunOk, OncePerKey;
    RunIsSafe(events);
  }
}
