/** The alert DeliveryTracker: what its seven fields say about the past, and what every run of the
    observe / publish / mark protocol keeps. The zero time is 0. */
module AlertDelivery {
  import opened Text

  /** One health check: the condition fires with a fingerprint, or has recovered. `delivered` is
      the publisher's answer, should the tracker decide to publish. */
  datatype Observation =
    | Firing(fingerprint: string, now: int, delivered: bool)
    | Recovered(now: int, delivered: bool)

  /** What came of an observation. */
  datatype Record =
    | Fired(fingerprint: string, at: int, delivered: bool)
    | Held(fingerprint: string, at: int)
    | Resolved(at: int, delivered: bool)
    | Waited(at: int)
    | Cleared(at: int)
    | Idle(at: int)

  datatype Intervals = Intervals(reminder: int, retry: int)

  datatype Tracker = Tracker(
    active: bool, firingDelivered: bool, deliveredFingerprint: string, pendingFingerprint: string,
    lastFiringAttemptAt: int, lastFiringDeliveredAt: int, lastResolveAttemptAt: int)

  const NEW := Tracker(false, false, "", "", 0, 0, 0)

  // ------------------------------------------------------------- the tracker

  function Opened(t: Tracker): Tracker {
    (if t.active then t else NEW.(active := true)).(lastResolveAttemptAt := 0)
  }

  predicate WantsFiring(t: Tracker, fingerprint: string, now: int, n: Intervals) {
    if !t.firingDelivered then
      t.pendingFingerprint != fingerprint || t.lastFiringAttemptAt == 0 || now - t.lastFiringAttemptAt >= n.retry
    else if fingerprint != t.deliveredFingerprint then
      t.pendingFingerprint != fingerprint || now - t.lastFiringAttemptAt >= n.retry
    else
      now - t.lastFiringDeliveredAt >= n.reminder && now - t.lastFiringAttemptAt >= n.retry
  }

  function Marked(t: Tracker, fingerprint: string, now: int, delivered: bool): Tracker {
    var m := t.(pendingFingerprint := fingerprint, lastFiringAttemptAt := now);
    if delivered then m.(firingDelivered := true, deliveredFingerprint := fingerprint, lastFiringDeliveredAt := now) else m
  }

  predicate WantsResolved(t: Tracker, now: int, n: Intervals) {
    t.active && t.firingDelivered && (t.lastResolveAttemptAt == 0 || now - t.lastResolveAttemptAt >= n.retry)
  }

  function Decide(t: Tracker, o: Observation, n: Intervals): Record {
    match o
    case Firing(f, now, delivered) =>
      if WantsFiring(Opened(t), f, now, n) then Fired(f, now, delivered) else Held(f, now)
    case Recovered(now, delivered) =>
      if !t.active then Idle(now)
      else if !t.firingDelivered then Cleared(now)
      else if WantsResolved(t, now, n) then Resolved(now, delivered) else Waited(now)
  }

  function After(t: Tracker, o: Observation, n: Intervals): Tracker {
    match Decide(t, o, n)
    case Fired(f, now, delivered) => Marked(Opened(t), f, now, delivered)
    case Held(_, _) => Opened(t)
    case Resolved(now, delivered) => if delivered then NEW else t.(lastResolveAttemptAt := now)
    case Waited(_) => t
    case Cleared(_) => NEW
    case Idle(_) => t
  }

  class DeliveryTracker {
    var active: bool
    var firingDelivered: bool
    var deliveredFingerprint: string
    var pendingFingerprint: string
    var lastFiringAttemptAt: int
    var lastFiringDeliveredAt: int
    var lastResolveAttemptAt: int

    function State(): Tracker
      reads this
    {
      Tracker(active, firingDelivered, deliveredFingerprint, pendingFingerprint,
              lastFiringAttemptAt, lastFiringDeliveredAt, lastResolveAttemptAt)
    }

    constructor ()
      ensures State() == NEW
    {
      active, firingDelivered, deliveredFingerprint, pendingFingerprint := false, false, "", "";
      lastFiringAttemptAt, lastFiringDeliveredAt, lastResolveAttemptAt := 0, 0, 0;
    }

    method ShouldPublishFiring(fingerprint: string, now: int, n: Intervals) returns (publish: bool)
      modifies this
      ensures State() == Opened(old(State()))
      ensures publish <==> WantsFiring(Opened(old(State())), fingerprint, now, n)
    {
      if !active {
        active, firingDelivered, deliveredFingerprint, pendingFingerprint := true, false, "", "";
        lastFiringAttemptAt, lastFiringDeliveredAt := 0, 0;
      }
      lastResolveAttemptAt := 0;
      if !firingDelivered {
        return pendingFingerprint != fingerprint || lastFiringAttemptAt == 0 || now - lastFiringAttemptAt >= n.retry;
      }
      if fingerprint != deliveredFingerprint {
        return pendingFingerprint != fingerprint || now - lastFiringAttemptAt >= n.retry;
      }
      return now - lastFiringDeliveredAt >= n.reminder && now - lastFiringAttemptAt >= n.retry;
    }

    method MarkFiringAttempt(fingerprint: string, now: int, delivered: bool)
      modifies this
      ensures State() == Marked(old(State()), fingerprint, now, delivered)
    {
      pendingFingerprint, lastFiringAttemptAt := fingerprint, now;
      if delivered {
        firingDelivered, deliveredFingerprint, lastFiringDeliveredAt := true, fingerprint, now;
      }
    }

    method ShouldPublishResolved(now: int, n: Intervals) returns (publish: bool)
      modifies this
      ensures publish <==> WantsResolved(old(State()), now, n)
      ensures State() == if old(active) && !old(firingDelivered) then NEW else old(State())
    {
      if !active {
        return false;
      }
      if !firingDelivered {
        Reset();
        return false;
      }
      return lastResolveAttemptAt == 0 || now - lastResolveAttemptAt >= n.retry;
    }

    method MarkResolvedAttempt(now: int, delivered: bool)
      modifies this
      ensures State() == if delivered then NEW else old(State()).(lastResolveAttemptAt := now)
    {
      lastResolveAttemptAt := now;
      if delivered {
        Reset();
      }
    }

    method Reset()
      modifies this
      ensures State() == NEW
    {
      active, firingDelivered, deliveredFingerprint, pendingFingerprint := false, false, "", "";
      lastFiringAttemptAt, lastFiringDeliveredAt, lastResolveAttemptAt := 0, 0, 0;
    }

    /** One turn of the protocol: ask, publish if told to, and mark the attempt. */
    method Observe(o: Observation, n: Intervals) returns (published: bool)
      modifies this
      ensures State() == After(old(State()), o, n)
      ensures published <==> (Decide(old(State()), o, n).Fired? || Decide(old(State()), o, n).Resolved?)
    {
      match o
      case Firing(f, now, delivered) =>
        published := ShouldPublishFiring(f, now, n);
        if published {
          MarkFiringAttempt(f, now, delivered);
        }
      case Recovered(now, delivered) =>
        published := ShouldPublishResolved(now, n);
        if published {
          MarkResolvedAttempt(now, delivered);
        }
    }
  }

  // ----------------------------------------------------- reading the past off the log

  predicate Ends(r: Record) { r.Cleared? || (r.Resolved? && r.delivered) }

  predicate Seen(r: Record) { r.Fired? || r.Held? }

  /** Some observation of the current incident has fired. */
  predicate IsOpen(log: seq<Record>) {
    log != [] && !Ends(log[|log| - 1]) && (Seen(log[|log| - 1]) || IsOpen(log[..|log| - 1]))
  }

  /** The last firing attempt of the current incident. */
  function LastAttempt(log: seq<Record>): (r: Option<Record>)
    ensures r.Some? ==> r.value.Fired?
  {
    if log == [] || Ends(log[|log| - 1]) then None
    else if log[|log| - 1].Fired? then Some(log[|log| - 1])
    else LastAttempt(log[..|log| - 1])
  }

  predicate FiredOut(r: Record) { r.Fired? && r.delivered }

  /** The last delivered firing of the current incident. */
  function LastDelivery(log: seq<Record>): (r: Option<Record>)
    ensures r.Some? ==> r.value.Fired?
  {
    if log == [] || Ends(log[|log| - 1]) then None
    else if FiredOut(log[|log| - 1]) then Some(log[|log| - 1])
    else LastDelivery(log[..|log| - 1])
  }

  /** The last failed recovery attempt since the condition was last seen to fire. */
  function LastResolve(log: seq<Record>): (r: Option<Record>)
    ensures r.Some? ==> r.value.Resolved?
  {
    if log == [] || Ends(log[|log| - 1]) || Seen(log[|log| - 1]) then None
    else if log[|log| - 1].Resolved? then Some(log[|log| - 1])
    else LastResolve(log[..|log| - 1])
  }

  /** The tracker as a view of the log alone. */
  function View(log: seq<Record>): Tracker {
    var a, d, s := LastAttempt(log), LastDelivery(log), LastResolve(log);
    Tracker(IsOpen(log), d.Some?,
            if d.Some? then d.value.fingerprint else "", if a.Some? then a.value.fingerprint else "",
            if a.Some? then a.value.at else 0, if d.Some? then d.value.at else 0, if s.Some? then s.value.at else 0)
  }

  function Log(observations: seq<Observation>, n: Intervals): (log: seq<Record>)
    ensures |log| == |observations|
  {
    if observations == [] then []
    else
      var log := Log(observations[..|observations| - 1], n);
      log + [Decide(View(log), observations[|observations| - 1], n)]
  }

  function Final(observations: seq<Observation>, n: Intervals): Tracker {
    if observations == [] then NEW
    else After(Final(observations[..|observations| - 1], n), observations[|observations| - 1], n)
  }

  /** Outside an incident nothing is remembered. */
  lemma {:induction false} ClosedRemembersNothing(log: seq<Record>)
    ensures !IsOpen(log) ==> LastAttempt(log).None? && LastDelivery(log).None?
    ensures LastDelivery(log).Some? ==> LastAttempt(log).Some?
  {
    if log != [] {
      ClosedRemembersNothing(log[..|log| - 1]);
    }
  }

  lemma {:induction false} NoResolveWithoutDelivery(observations: seq<Observation>, n: Intervals)
    ensures var log := Log(observations, n); LastResolve(log).Some? ==> LastDelivery(log).Some? && IsOpen(log)
  {
    if observations != [] {
      var log := Log(observations[..|observations| - 1], n);
      NoResolveWithoutDelivery(observations[..|observations| - 1], n);
      var r := Decide(View(log), observations[|observations| - 1], n);
      assert (log + [r])[..|log|] == log;
    }
  }

  lemma {:induction false} StepIsView(log: seq<Record>, o: Observation, n: Intervals)
    requires LastResolve(log).Some? ==> IsOpen(log)
    ensures After(View(log), o, n) == View(log + [Decide(View(log), o, n)])
  {
    hide WantsFiring, WantsResolved;
    ClosedRemembersNothing(log);
    var r := Decide(View(log), o, n);
    assert (log + [r])[..|log|] == log;
  }

  /** In every run the seven fields are exactly the view of the log, which is what the tracker decided on. */
  lemma {:induction false} TrackerIsView(observations: seq<Observation>, n: Intervals)
    ensures Final(observations, n) == View(Log(observations, n))
  {
    hide Decide, After, View;
    if observations == [] {
      assert View([]) == NEW by { EmptyView(); }
    } else {
      var earlier := observations[..|observations| - 1];
      TrackerIsView(earlier, n);
      NoResolveWithoutDelivery(earlier, n);
      StepIsView(Log(earlier, n), observations[|observations| - 1], n);
    }
  }

  lemma {:induction false} EmptyView()
    ensures View([]) == NEW
  {
  }

  lemma {:induction false} LogAt(observations: seq<Observation>, n: Intervals, j: nat)
    requires j < |observations|
    ensures var log := Log(observations, n);
            log[..j] == Log(observations[..j], n) && log[j] == Decide(View(log[..j]), observations[j], n)
  {
    hide Decide, View;
    var m := |observations| - 1;
    var log := Log(observations, n);
    assert log[..m] == Log(observations[..m], n);
    if j < m {
      LogAt(observations[..m], n, j);
      assert observations[..m][..j] == observations[..j];
      assert log[..m][..j] == log[..j] && log[..m][j] == log[j];
    }
  }

  // -------------------------------------------------------------- whole-run properties

  predicate Timed(observations: seq<Observation>) {
    forall i :: 0 <= i < |observations| ==> observations[i].now != 0
  }

  /** Records strictly between `i` and `j` stay inside the incident. */
  predicate SameIncident(log: seq<Record>, i: nat, j: nat)
    requires j <= |log|
  {
    forall k :: i < k < j ==> !Ends(log[k])
  }

  lemma {:induction false} AttemptFound(log: seq<Record>, i: nat)
    requires i < |log| && log[i].Fired? && SameIncident(log, i, |log|)
    requires forall k :: i < k < |log| ==> !log[k].Fired?
    ensures LastAttempt(log) == Some(log[i])
    decreases |log|
  {
    if i < |log| - 1 {
      AttemptFound(log[..|log| - 1], i);
    }
  }

  lemma {:induction false} DeliveryFound(log: seq<Record>, i: nat)
    requires i < |log| && FiredOut(log[i]) && SameIncident(log, i, |log|)
    requires forall k :: i < k < |log| ==> !FiredOut(log[k])
    ensures LastDelivery(log) == Some(log[i])
    decreases |log|
  {
    if i < |log| - 1 {
      DeliveryFound(log[..|log| - 1], i);
    }
  }

  lemma {:induction false} ResolveFound(log: seq<Record>, i: nat)
    requires i < |log| && log[i].Resolved? && !log[i].delivered && SameIncident(log, i, |log|)
    requires forall k :: i < k < |log| ==> !Seen(log[k]) && !log[k].Resolved?
    ensures LastResolve(log) == Some(log[i])
    decreases |log|
  {
    if i < |log| - 1 {
      ResolveFound(log[..|log| - 1], i);
    }
  }

  lemma {:induction false} AttemptComesFrom(log: seq<Record>)
    requires LastAttempt(log).Some?
    ensures exists i :: 0 <= i < |log| && log[i] == LastAttempt(log).value && SameIncident(log, i, |log|)
  {
    if log[|log| - 1].Fired? {
      assert SameIncident(log, |log| - 1, |log|);
    } else {
      AttemptComesFrom(log[..|log| - 1]);
      var i :| 0 <= i < |log| - 1 && log[..|log| - 1][i] == LastAttempt(log).value && SameIncident(log[..|log| - 1], i, |log| - 1);
      assert forall k :: i < k < |log| - 1 ==> log[k] == log[..|log| - 1][k];
      assert SameIncident(log, i, |log|);
    }
  }

  lemma {:induction false} DeliveryComesFrom(log: seq<Record>)
    requires LastDelivery(log).Some?
    ensures exists i :: 0 <= i < |log| && log[i] == LastDelivery(log).value && FiredOut(log[i]) && SameIncident(log, i, |log|)
  {
    if FiredOut(log[|log| - 1]) {
      assert SameIncident(log, |log| - 1, |log|);
    } else {
      DeliveryComesFrom(log[..|log| - 1]);
      var i :| 0 <= i < |log| - 1 && log[..|log| - 1][i] == LastDelivery(log).value && FiredOut(log[..|log| - 1][i]) && SameIncident(log[..|log| - 1], i, |log| - 1);
      assert forall k :: i < k < |log| - 1 ==> log[k] == log[..|log| - 1][k];
      assert log[i] == log[..|log| - 1][i];
      assert SameIncident(log, i, |log|);
    }
  }

  /** Within one incident, adjacent attempts for the same fingerprint are at least the retry interval apart. */
  lemma {:induction false} AttemptsRespectRetry(observations: seq<Observation>, n: Intervals, i: nat, j: nat)
    requires Timed(observations) && i < j < |observations|
    requires var log := Log(observations, n);
             && log[i].Fired? && log[j].Fired? && log[i].fingerprint == log[j].fingerprint
             && SameIncident(log, i, j) && forall k :: i < k < j ==> !log[k].Fired?
    ensures var log := Log(observations, n); log[j].at - log[i].at >= n.retry
  {
    hide Log;
    var log := Log(observations, n);
    LogAt(observations, n, j);
    LogAt(observations, n, i);
    AttemptFound(log[..j], i);
    ClosedRemembersNothing(log[..j]);
  }

  /** Within one incident, adjacent deliveries of the same fingerprint are at least the reminder interval apart. */
  lemma {:induction false} DeliveriesRespectReminder(observations: seq<Observation>, n: Intervals, i: nat, j: nat)
    requires i < j < |observations|
    requires var log := Log(observations, n);
             && FiredOut(log[i]) && FiredOut(log[j]) && log[i].fingerprint == log[j].fingerprint
             && SameIncident(log, i, j) && forall k :: i < k < j ==> !FiredOut(log[k])
    ensures var log := Log(observations, n); log[j].at - log[i].at >= n.reminder
  {
    hide Log;
    var log := Log(observations, n);
    LogAt(observations, n, j);
    DeliveryFound(log[..j], i);
    ClosedRemembersNothing(log[..j]);
  }

  /** Recovery attempts with no firing observation between them are at least the retry interval apart. */
  lemma {:induction false} ResolvesRespectRetry(observations: seq<Observation>, n: Intervals, i: nat, j: nat)
    requires Timed(observations) && i < j < |observations|
    requires var log := Log(observations, n);
             && log[i].Resolved? && log[j].Resolved? && !log[i].delivered && SameIncident(log, i, j)
             && forall k :: i < k < j ==> !Seen(log[k]) && !log[k].Resolved?
    ensures var log := Log(observations, n); log[j].at - log[i].at >= n.retry
  {
    hide Log;
    var log := Log(observations, n);
    LogAt(observations, n, j);
    LogAt(observations, n, i);
    ResolveFound(log[..j], i);
  }

  /** The recovery attempt at `i` failed, and no firing has been observed from there to `j`. */
  predicate Pending(log: seq<Record>, i: nat, j: nat)
    requires i < j <= |log| && log[i].Resolved?
  {
    !log[i].delivered && forall k :: i < k < j ==> !Seen(log[k])
  }

  /** In every run a recovery is attempted exactly when its incident has a delivered firing and no
      failed attempt since the condition was last seen to fire is less than the retry interval old:
      so an undelivered recovery is tried again until it gets through. */
  lemma {:induction false} RecoveryIsRetried(observations: seq<Observation>, n: Intervals, j: nat)
    requires Timed(observations) && InOrder(observations) && j < |observations| && observations[j].Recovered?
    ensures var log := Log(observations, n);
            log[j].Resolved? <==>
              && (exists i :: 0 <= i < j && FiredOut(log[i]) && SameIncident(log, i, j))
              && forall i :: 0 <= i < j && log[i].Resolved? && SameIncident(log, i, j) && Pending(log, i, j) ==>
                   observations[j].now - log[i].at >= n.retry
  {
    hide Log, LastResolve, LastDelivery, LastAttempt, IsOpen;
    var log := Log(observations, n);
    LogAt(observations, n, j);
    ClosedRemembersNothing(log[..j]);
    assert forall k :: 0 <= k < j ==> log[..j][k] == log[k];
    if log[j].Resolved? {
      RecoveryHasItsFiring(observations, n, j);
      forall i | 0 <= i < j && log[i].Resolved? && SameIncident(log, i, j) && Pending(log, i, j)
        ensures observations[j].now - log[i].at >= n.retry
      {
        RecordTimes(observations, n, j);
        NotReopened(log[..j], i);
        LateResolveIsSpaced(observations, n, i, j);
      }
    } else if i :| 0 <= i < j && FiredOut(log[i]) && SameIncident(log, i, j) {
      StillDelivered(log[..j], i);
      LastResolveFrom(log[..j]);
      var k :| 0 <= k < j && log[..j][k].Resolved? && !log[..j][k].delivered && LastResolve(log[..j]) == Some(log[..j][k])
        && SameIncident(log[..j], k, j) && forall x :: k < x < j ==> !Seen(log[..j][x]);
      PrefixIncident(log, k, j);
    }
  }

  lemma {:induction false} NotReopened(log: seq<Record>, i: nat)
    requires i < |log| && log[i].Resolved? && !log[i].delivered && SameIncident(log, i, |log|)
    requires forall k :: i < k < |log| ==> !Seen(log[k])
    ensures !Reopened(log)
    decreases |log|
  {
    if i < |log| - 1 {
      NotReopened(log[..|log| - 1], i);
    }
  }

  lemma {:induction false} LastResolveFrom(log: seq<Record>)
    ensures LastResolve(log).Some? ==>
              exists k :: 0 <= k < |log| && log[k].Resolved? && !log[k].delivered && LastResolve(log) == Some(log[k])
                && SameIncident(log, k, |log|) && forall x :: k < x < |log| ==> !Seen(log[x])
  {
    if LastResolve(log).Some? {
      var n := |log| - 1;
      if log[n].Resolved? {
        assert SameIncident(log, n, |log|);
      } else {
        var front := log[..n];
        LastResolveFrom(front);
        var k :| 0 <= k < n && front[k].Resolved? && !front[k].delivered && LastResolve(front) == Some(front[k])
          && SameIncident(front, k, n) && forall x :: k < x < n ==> !Seen(front[x]);
        assert forall x :: k <= x < n ==> log[x] == front[x];
        assert SameIncident(log, k, |log|);
      }
    }
  }

  /** Every recovery that is published, delivered or not, follows a delivered firing of the same
      incident, so delivered recoveries each have a firing of their own. */
  lemma {:induction false} RecoveryHasItsFiring(observations: seq<Observation>, n: Intervals, j: nat)
    requires j < |observations| && Log(observations, n)[j].Resolved?
    ensures var log := Log(observations, n); exists i :: 0 <= i < j && FiredOut(log[i]) && SameIncident(log, i, j)
  {
    hide Log;
    var log := Log(observations, n);
    LogAt(observations, n, j);
    DeliveryComesFrom(log[..j]);
    var i :| 0 <= i < j && FiredOut(log[..j][i]) && SameIncident(log[..j], i, j);
    PrefixIncident(log, i, j);
  }

  /** No incident ends silently after a delivered firing. */
  lemma {:induction false} OnlyUndeliveredIncidentsClear(observations: seq<Observation>, n: Intervals, i: nat, j: nat)
    requires i < j < |observations|
    requires var log := Log(observations, n); FiredOut(log[i]) && log[j].Cleared?
    ensures !SameIncident(Log(observations, n), i, j)
  {
    hide Log;
    var log := Log(observations, n);
    if SameIncident(log, i, j) {
      LogAt(observations, n, j);
      StillDelivered(log[..j], i);
      assert false;
    }
  }

  lemma {:induction false} StillDelivered(log: seq<Record>, i: nat)
    requires i < |log| && FiredOut(log[i]) && SameIncident(log, i, |log|)
    ensures LastDelivery(log).Some?
    decreases |log|
  {
    if i < |log| - 1 {
      StillDelivered(log[..|log| - 1], i);
    }
  }

  function DeliveredFirings(log: seq<Record>): nat {
    if log == [] then 0 else DeliveredFirings(log[..|log| - 1]) + if FiredOut(log[|log| - 1]) then 1 else 0
  }

  function DeliveredRecoveries(log: seq<Record>): nat {
    if log == [] then 0
    else DeliveredRecoveries(log[..|log| - 1]) + if log[|log| - 1].Resolved? && log[|log| - 1].delivered then 1 else 0
  }

  /** At every point of every run there are no more delivered recoveries than delivered firings. */
  lemma {:induction false} RecoveriesNeverOutnumberFirings(observations: seq<Observation>, n: Intervals)
    ensures var log := Log(observations, n);
            DeliveredRecoveries(log) + (if LastDelivery(log).Some? then 1 else 0) <= DeliveredFirings(log)
  {
    if observations != [] {
      var log := Log(observations[..|observations| - 1], n);
      RecoveriesNeverOutnumberFirings(observations[..|observations| - 1], n);
      var r := Decide(View(log), observations[|observations| - 1], n);
      assert (log + [r])[..|log|] == log;
    }
  }

  lemma {:induction false} PrefixIncident(log: seq<Record>, i: nat, j: nat)
    requires i < j <= |log| && SameIncident(log[..j], i, j)
    ensures SameIncident(log, i, j) && log[..j][i] == log[i]
  {
    assert forall k :: i <= k < j ==> log[k] == log[..j][k];
  }

  /** A firing observation is held back only for a reason: a recent attempt of the same fingerprint
      in this incident, or a recent attempt or delivery while this very fingerprint stands delivered. */
  lemma {:induction false} HeldForAReason(observations: seq<Observation>, n: Intervals, j: nat)
    requires j < |observations| && Log(observations, n)[j].Held?
    ensures var log := Log(observations, n);
            var now, f := observations[j].now, log[j].fingerprint;
            exists i :: 0 <= i < j && log[i].Fired? && SameIncident(log, i, j)
                        && ((now - log[i].at < n.retry && (log[i].fingerprint == f || DeliveredIs(log[..j], f)))
                            || (log[i].fingerprint == f && log[i].delivered && now - log[i].at < n.reminder))
  {
    hide Log;
    var log := Log(observations, n);
    var f, now := log[j].fingerprint, observations[j].now;
    LogAt(observations, n, j);
    ClosedRemembersNothing(log[..j]);
    AttemptComesFrom(log[..j]);
    var i :| 0 <= i < j && log[..j][i] == LastAttempt(log[..j]).value && SameIncident(log[..j], i, j);
    PrefixIncident(log, i, j);
    if now - log[i].at >= n.retry {
      DeliveryComesFrom(log[..j]);
      var d :| 0 <= d < j && log[..j][d] == LastDelivery(log[..j]).value && FiredOut(log[..j][d]) && SameIncident(log[..j], d, j);
      PrefixIncident(log, d, j);
      assert log[d].fingerprint == f && log[d].delivered && now - log[d].at < n.reminder;
    }
  }

  predicate DeliveredIs(log: seq<Record>, f: string) {
    LastDelivery(log).Some? && LastDelivery(log).value.fingerprint == f
  }

  // ------------------------------------------- when the intervals separate all of them

  predicate InOrder(observations: seq<Observation>) {
    forall i, j :: 0 <= i < j < |observations| ==> observations[i].now <= observations[j].now
  }

  lemma {:induction false} RecordTimes(observations: seq<Observation>, n: Intervals, j: nat)
    requires j < |observations|
    ensures Log(observations, n)[j].at == observations[j].now
    ensures Log(observations, n)[j].Fired? ==> observations[j].Firing? && Log(observations, n)[j].fingerprint == observations[j].fingerprint
  {
    hide Log, View;
    LogAt(observations, n, j);
  }

  lemma {:induction false} LogInOrder(observations: seq<Observation>, n: Intervals, i: nat, j: nat)
    requires InOrder(observations) && i <= j < |observations|
    ensures Log(observations, n)[i].at <= Log(observations, n)[j].at
  {
    hide Log;
    RecordTimes(observations, n, i);
    RecordTimes(observations, n, j);
  }

  /** Whatever came after the attempt at `i` in its incident, the last attempt is not older. */
  lemma {:induction false} LastAttemptIsLate(log: seq<Record>, i: nat)
    requires i < |log| && log[i].Fired? && SameIncident(log, i, |log|)
    ensures exists k :: i <= k < |log| && log[k].Fired? && LastAttempt(log) == Some(log[k])
    decreases |log|
  {
    var last := |log| - 1;
    if !log[last].Fired? {
      var front := log[..last];
      LastAttemptIsLate(front, i);
      var k :| i <= k < |front| && front[k].Fired? && LastAttempt(front) == Some(front[k]);
      assert log[k] == front[k];
    }
  }

  lemma {:induction false} LastDeliveryIsLate(log: seq<Record>, i: nat)
    requires i < |log| && FiredOut(log[i]) && SameIncident(log, i, |log|)
    ensures exists k :: i <= k < |log| && FiredOut(log[k]) && LastDelivery(log) == Some(log[k])
    decreases |log|
  {
    var last := |log| - 1;
    if !FiredOut(log[last]) {
      var front := log[..last];
      LastDeliveryIsLate(front, i);
      var k :| i <= k < |front| && FiredOut(front[k]) && LastDelivery(front) == Some(front[k]);
      assert log[k] == front[k];
    }
  }

  /** The observation takes the branch for a changed fingerprint: the incident's last attempt was for
      another one, and `f` is not the one that stands delivered. */
  predicate Changed(log: seq<Record>, f: string) {
    LastAttempt(log).Some? && LastAttempt(log).value.fingerprint != f && !DeliveredIs(log, f)
  }

  /** The incident holds an attempt for `f` less than `gap` before `now`. */
  predicate RecentAttempt(log: seq<Record>, f: string, now: int, gap: int) {
    exists i :: 0 <= i < |log| && log[i].Fired? && log[i].fingerprint == f && SameIncident(log, i, |log|) && now - log[i].at < gap
  }

  predicate RecentDelivery(log: seq<Record>, f: string, now: int, gap: int) {
    exists i :: 0 <= i < |log| && FiredOut(log[i]) && log[i].fingerprint == f && SameIncident(log, i, |log|) && now - log[i].at < gap
  }

  /** A changed fingerprint is attempted whatever the intervals, and so is the first of an incident;
      nothing else is. */
  lemma {:induction false} AlwaysAttempted(log: seq<Record>, f: string, now: int, delivered: bool)
    requires LastAttempt(log).Some? ==> LastAttempt(log).value.at != 0
    ensures (forall n :: Decide(View(log), Firing(f, now, delivered), n).Fired?) <==> LastAttempt(log).None? || Changed(log, f)
  {
    ClosedRemembersNothing(log);
    var a := LastAttempt(log);
    if a.Some? && !Changed(log, f) {
      var n := Intervals(0, now - a.value.at + 1);
      assert !Decide(View(log), Firing(f, now, delivered), n).Fired?;
    }
  }

  lemma {:induction false} RecentInPrefix(log: seq<Record>, f: string, j: nat, gap: int)
    requires j < |log|
    ensures RecentAttempt(log[..j], f, log[j].at, gap) <==>
            exists i :: 0 <= i < j && log[i].Fired? && log[i].fingerprint == f && SameIncident(log, i, j) && log[j].at - log[i].at < gap
    ensures RecentDelivery(log[..j], f, log[j].at, gap) <==>
            exists i :: 0 <= i < j && FiredOut(log[i]) && log[i].fingerprint == f && SameIncident(log, i, j) && log[j].at - log[i].at < gap
  {
    forall i | 0 <= i < j ensures log[..j][i] == log[i] && (SameIncident(log[..j], i, j) <==> SameIncident(log, i, j)) {
      assert forall k :: i < k < j ==> log[k] == log[..j][k];
    }
  }

  /** The attempt at `j`, if there is one, keeps the retry interval from every earlier attempt for
      its fingerprint in the incident, adjacent or not. */
  predicate AttemptSpaced(log: seq<Record>, j: nat, n: Intervals)
    requires j < |log|
  {
    log[j].Fired? ==>
      forall i :: 0 <= i < j && log[i].Fired? && log[i].fingerprint == log[j].fingerprint && SameIncident(log, i, j) ==>
        log[j].at - log[i].at >= n.retry
  }

  predicate DeliverySpaced(log: seq<Record>, j: nat, n: Intervals)
    requires j < |log|
  {
    FiredOut(log[j]) ==>
      forall i :: 0 <= i < j && FiredOut(log[i]) && log[i].fingerprint == log[j].fingerprint && SameIncident(log, i, j) ==>
        log[j].at - log[i].at >= n.reminder
  }

  lemma {:induction false} UnchangedIsSpaced(observations: seq<Observation>, n: Intervals, i: nat, j: nat)
    requires Timed(observations) && InOrder(observations) && i < j < |observations|
    requires var log := Log(observations, n);
             && log[i].Fired? && log[j].Fired? && log[i].fingerprint == log[j].fingerprint && SameIncident(log, i, j)
             && !Changed(log[..j], log[j].fingerprint)
    ensures var log := Log(observations, n); log[j].at - log[i].at >= n.retry
  {
    hide Log;
    var log := Log(observations, n);
    LogAt(observations, n, j);
    assert SameIncident(log[..j], i, j);
    LastAttemptIsLate(log[..j], i);
    var k :| i <= k < j && log[..j][k].Fired? && LastAttempt(log[..j]) == Some(log[..j][k]);
    assert log[..j][k] == log[k];
    LogInOrder(observations, n, i, k);
    RecordTimes(observations, n, k);
    ClosedRemembersNothing(log[..j]);
  }

  /** Two attempts for one fingerprint in one incident with none for another between them are at
      least the retry interval apart, however many there are in between. */
  lemma {:induction false} AttemptsApartWithoutChange(observations: seq<Observation>, n: Intervals, i: nat, j: nat)
    requires Timed(observations) && InOrder(observations) && i < j < |observations|
    requires var log := Log(observations, n);
             && log[i].Fired? && log[j].Fired? && log[i].fingerprint == log[j].fingerprint && SameIncident(log, i, j)
             && forall k :: i < k < j && log[k].Fired? ==> log[k].fingerprint == log[i].fingerprint
    ensures var log := Log(observations, n); log[j].at - log[i].at >= n.retry
  {
    hide Log;
    var log := Log(observations, n);
    assert SameIncident(log[..j], i, j);
    LastAttemptIsLate(log[..j], i);
    var k :| i <= k < j && log[..j][k].Fired? && LastAttempt(log[..j]) == Some(log[..j][k]);
    assert log[..j][k] == log[k];
    UnchangedIsSpaced(observations, n, i, j);
  }

  lemma {:induction false} AttemptSpacedExactly(observations: seq<Observation>, n: Intervals, j: nat)
    requires Timed(observations) && InOrder(observations) && j < |observations| && observations[j].Firing?
    ensures var log := Log(observations, n);
            var f, now := observations[j].fingerprint, observations[j].now;
            AttemptSpaced(log, j, n) <==> !(Changed(log[..j], f) && RecentAttempt(log[..j], f, now, n.retry))
  {
    hide Log, Changed, RecentAttempt, RecentDelivery, View;
    var log := Log(observations, n);
    var f := observations[j].fingerprint;
    RecordTimes(observations, n, j);
    RecentInPrefix(log, f, j, n.retry);
    if Changed(log[..j], f) {
      ChangeIsAttempted(observations, n, j);
    } else if log[j].Fired? {
      forall i | 0 <= i < j && log[i].Fired? && log[i].fingerprint == log[j].fingerprint && SameIncident(log, i, j)
        ensures log[j].at - log[i].at >= n.retry
      {
        UnchangedIsSpaced(observations, n, i, j);
      }
    }
  }

  lemma {:induction false} ChangeIsAttempted(observations: seq<Observation>, n: Intervals, j: nat)
    requires Timed(observations) && j < |observations| && observations[j].Firing?
    requires Changed(Log(observations, n)[..j], observations[j].fingerprint)
    ensures Log(observations, n)[j].Fired? && Log(observations, n)[j].fingerprint == observations[j].fingerprint
  {
    hide Log;
    var log := Log(observations, n);
    LogAt(observations, n, j);
    ClosedRemembersNothing(log[..j]);
  }

  /** In every run the retry interval separates all attempts for one fingerprint within an incident
      exactly when no observation brings back, as a change, a fingerprint attempted less than the
      interval ago. */
  lemma {:induction false} RetrySeparatesExactly(observations: seq<Observation>, n: Intervals)
    requires Timed(observations) && InOrder(observations)
    ensures var log := Log(observations, n);
            (forall j :: 0 <= j < |log| ==> AttemptSpaced(log, j, n)) <==>
            (forall j :: 0 <= j < |log| && observations[j].Firing? ==>
               !(Changed(log[..j], observations[j].fingerprint)
                 && RecentAttempt(log[..j], observations[j].fingerprint, observations[j].now, n.retry)))
  {
    hide Log, Changed, RecentAttempt;
    var log := Log(observations, n);
    forall j | 0 <= j < |log|
      ensures AttemptSpaced(log, j, n) <==>
              (observations[j].Firing? ==>
                 !(Changed(log[..j], observations[j].fingerprint)
                   && RecentAttempt(log[..j], observations[j].fingerprint, observations[j].now, n.retry)))
    {
      RecordTimes(observations, n, j);
      if observations[j].Firing? {
        AttemptSpacedExactly(observations, n, j);
      }
    }
  }

  /** The publisher takes a fingerprint that is not the one that stands delivered: it is attempted
      as a change or after the retry interval. */
  predicate Redelivers(log: seq<Record>, f: string, now: int, n: Intervals) {
    && !DeliveredIs(log, f)
    && (LastAttempt(log).None? || LastAttempt(log).value.fingerprint != f || now - LastAttempt(log).value.at >= n.retry)
  }

  lemma {:induction false} RedeliveryIsAttempted(observations: seq<Observation>, n: Intervals, j: nat)
    requires Timed(observations) && j < |observations| && observations[j].Firing?
    requires Redelivers(Log(observations, n)[..j], observations[j].fingerprint, observations[j].now, n)
    ensures Log(observations, n)[j] == Fired(observations[j].fingerprint, observations[j].now, observations[j].delivered)
  {
    hide Log;
    var log := Log(observations, n);
    LogAt(observations, n, j);
    ClosedRemembersNothing(log[..j]);
  }

  lemma {:induction false} StandingDeliveryIsSpaced(observations: seq<Observation>, n: Intervals, i: nat, j: nat)
    requires Timed(observations) && InOrder(observations) && i < j < |observations|
    requires var log := Log(observations, n);
             && FiredOut(log[i]) && FiredOut(log[j]) && log[i].fingerprint == log[j].fingerprint && SameIncident(log, i, j)
             && !Redelivers(log[..j], log[j].fingerprint, log[j].at, n)
    ensures var log := Log(observations, n); log[j].at - log[i].at >= n.reminder
  {
    hide Log;
    var log := Log(observations, n);
    LogAt(observations, n, j);
    assert SameIncident(log[..j], i, j);
    LastDeliveryIsLate(log[..j], i);
    var k :| i <= k < j && FiredOut(log[..j][k]) && LastDelivery(log[..j]) == Some(log[..j][k]);
    assert log[..j][k] == log[k];
    LogInOrder(observations, n, i, k);
    LastAttemptIsLate(log[..j], i);
    var a :| i <= a < j && log[..j][a].Fired? && LastAttempt(log[..j]) == Some(log[..j][a]);
    assert log[..j][a] == log[a];
    RecordTimes(observations, n, a);
    ClosedRemembersNothing(log[..j]);
  }

  lemma {:induction false} DeliverySpacedExactly(observations: seq<Observation>, n: Intervals, j: nat)
    requires Timed(observations) && InOrder(observations) && j < |observations| && observations[j].Firing?
    ensures var log := Log(observations, n);
            var f, now := observations[j].fingerprint, observations[j].now;
            DeliverySpaced(log, j, n) <==>
            !(observations[j].delivered && Redelivers(log[..j], f, now, n) && RecentDelivery(log[..j], f, now, n.reminder))
  {
    hide Log, Redelivers, RecentAttempt, RecentDelivery, View;
    var log := Log(observations, n);
    var f := observations[j].fingerprint;
    RecordTimes(observations, n, j);
    RecentInPrefix(log, f, j, n.reminder);
    DeliveredAsAsked(observations, n, j);
    if Redelivers(log[..j], f, observations[j].now, n) {
      RedeliveryIsAttempted(observations, n, j);
    } else if FiredOut(log[j]) {
      forall i | 0 <= i < j && FiredOut(log[i]) && log[i].fingerprint == log[j].fingerprint && SameIncident(log, i, j)
        ensures log[j].at - log[i].at >= n.reminder
      {
        StandingDeliveryIsSpaced(observations, n, i, j);
      }
    }
  }

  lemma {:induction false} DeliveredAsAsked(observations: seq<Observation>, n: Intervals, j: nat)
    requires j < |observations|
    ensures FiredOut(Log(observations, n)[j]) ==> observations[j].Firing? && observations[j].delivered
  {
    hide Log, View;
    LogAt(observations, n, j);
  }

  /** In every run the reminder interval separates all deliveries of one fingerprint within an
      incident exactly when the publisher never takes, as a redelivery, a fingerprint delivered less
      than the interval ago. */
  lemma {:induction false} ReminderSeparatesExactly(observations: seq<Observation>, n: Intervals)
    requires Timed(observations) && InOrder(observations)
    ensures var log := Log(observations, n);
            (forall j :: 0 <= j < |log| ==> DeliverySpaced(log, j, n)) <==>
            (forall j :: 0 <= j < |log| && observations[j].Firing? ==>
               !(observations[j].delivered && Redelivers(log[..j], observations[j].fingerprint, observations[j].now, n)
                 && RecentDelivery(log[..j], observations[j].fingerprint, observations[j].now, n.reminder)))
  {
    hide Log, Redelivers, RecentDelivery;
    var log := Log(observations, n);
    forall j | 0 <= j < |log|
      ensures DeliverySpaced(log, j, n) <==>
              (observations[j].Firing? ==>
                 !(observations[j].delivered && Redelivers(log[..j], observations[j].fingerprint, observations[j].now, n)
                   && RecentDelivery(log[..j], observations[j].fingerprint, observations[j].now, n.reminder)))
    {
      DeliveredAsAsked(observations, n, j);
      if observations[j].Firing? {
        DeliverySpacedExactly(observations, n, j);
      }
    }
  }

  /** The recovery attempt at `j`, if there is one, keeps the retry interval from every earlier
      recovery attempt of the incident. */
  predicate ResolveSpaced(log: seq<Record>, j: nat, n: Intervals)
    requires j < |log|
  {
    log[j].Resolved? ==>
      forall i :: 0 <= i < j && log[i].Resolved? && !log[i].delivered && SameIncident(log, i, j) ==> log[j].at - log[i].at >= n.retry
  }

  /** The incident holds a failed recovery attempt less than `gap` before `now`. */
  predicate RecentResolve(log: seq<Record>, now: int, gap: int) {
    exists i :: 0 <= i < |log| && log[i].Resolved? && !log[i].delivered && SameIncident(log, i, |log|) && now - log[i].at < gap
  }

  /** The condition was seen to fire again after the last recovery attempt, held back or not, or
      there was no attempt yet. */
  predicate Reopened(log: seq<Record>) { LastResolve(log).None? }

  lemma {:induction false} LastResolveIsLate(log: seq<Record>, i: nat)
    requires i < |log| && log[i].Resolved? && !log[i].delivered && SameIncident(log, i, |log|) && !Reopened(log)
    ensures exists k :: i <= k < |log| && log[k].Resolved? && LastResolve(log) == Some(log[k])
    decreases |log|
  {
    var last := |log| - 1;
    if !log[last].Resolved? {
      var front := log[..last];
      LastResolveIsLate(front, i);
      var k :| i <= k < |front| && front[k].Resolved? && LastResolve(front) == Some(front[k]);
      assert log[k] == front[k];
    }
  }

  lemma {:induction false} RecentResolveInPrefix(log: seq<Record>, j: nat, gap: int)
    requires j < |log|
    ensures RecentResolve(log[..j], log[j].at, gap) <==>
            exists i :: 0 <= i < j && log[i].Resolved? && !log[i].delivered && SameIncident(log, i, j) && log[j].at - log[i].at < gap
  {
    forall i | 0 <= i < j ensures log[..j][i] == log[i] && (SameIncident(log[..j], i, j) <==> SameIncident(log, i, j)) {
      assert forall k :: i < k < j ==> log[k] == log[..j][k];
    }
  }

  /** A recovery attempt leaves its incident open and delivered until it ends. */
  lemma {:induction false} ResolvedStaysDelivered(observations: seq<Observation>, n: Intervals, i: nat, j: nat)
    requires i < j <= |observations|
    requires var log := Log(observations, n); log[i].Resolved? && !log[i].delivered && SameIncident(log, i, j)
    ensures LastDelivery(Log(observations, n)[..j]).Some?
  {
    hide Log;
    var log := Log(observations, n);
    RecoveryHasItsFiring(observations, n, i);
    var f :| 0 <= f < i && FiredOut(log[f]) && SameIncident(log, f, i);
    assert forall k :: 0 <= k < j ==> log[..j][k] == log[k];
    StillDelivered(log[..j], f);
  }

  lemma {:induction false} ResolveSpacedExactly(observations: seq<Observation>, n: Intervals, j: nat)
    requires Timed(observations) && InOrder(observations) && j < |observations| && observations[j].Recovered?
    ensures var log := Log(observations, n);
            ResolveSpaced(log, j, n) <==> !(Reopened(log[..j]) && RecentResolve(log[..j], observations[j].now, n.retry))
  {
    hide Log, IsOpen, LastAttempt, LastDelivery, LastResolve, SameIncident;
    var log := Log(observations, n);
    LogAt(observations, n, j);
    RecordTimes(observations, n, j);
    RecentResolveInPrefix(log, j, n.retry);
    ClosedRemembersNothing(log[..j]);
    forall i | 0 <= i < j && log[i].Resolved? && !log[i].delivered && SameIncident(log, i, j)
      ensures LastDelivery(log[..j]).Some?
      ensures log[j].Resolved? && !Reopened(log[..j]) ==> log[j].at - log[i].at >= n.retry
    {
      ResolvedStaysDelivered(observations, n, i, j);
      if log[j].Resolved? && !Reopened(log[..j]) {
        LateResolveIsSpaced(observations, n, i, j);
      }
    }
  }

  lemma {:induction false} LateResolveIsSpaced(observations: seq<Observation>, n: Intervals, i: nat, j: nat)
    requires Timed(observations) && InOrder(observations) && i < j < |observations|
    requires var log := Log(observations, n);
             && log[i].Resolved? && !log[i].delivered && SameIncident(log, i, j) && log[j].Resolved? && !Reopened(log[..j])
    ensures var log := Log(observations, n); log[j].at - log[i].at >= n.retry
  {
    hide Log;
    var log := Log(observations, n);
    LogAt(observations, n, j);
    assert SameIncident(log[..j], i, j);
    LastResolveIsLate(log[..j], i);
    var k :| i <= k < j && log[..j][k].Resolved? && LastResolve(log[..j]) == Some(log[..j][k]);
    assert log[..j][k] == log[k];
    LogInOrder(observations, n, i, k);
    RecordTimes(observations, n, k);
  }

  /** In every run the retry interval separates all recovery attempts within an incident exactly when
      no recovery is observed less than the interval after one, with a firing observed, published or
      held back, since the last. */
  lemma {:induction false} RecoverySeparatesExactly(observations: seq<Observation>, n: Intervals)
    requires Timed(observations) && InOrder(observations)
    ensures var log := Log(observations, n);
            (forall j :: 0 <= j < |log| ==> ResolveSpaced(log, j, n)) <==>
            (forall j :: 0 <= j < |log| && observations[j].Recovered? ==>
               !(Reopened(log[..j]) && RecentResolve(log[..j], observations[j].now, n.retry)))
  {
    hide Log, Reopened, RecentResolve;
    var log := Log(observations, n);
    forall j | 0 <= j < |log|
      ensures ResolveSpaced(log, j, n) <==>
              (observations[j].Recovered? ==> !(Reopened(log[..j]) && RecentResolve(log[..j], observations[j].now, n.retry)))
    {
      if observations[j].Recovered? {
        ResolveSpacedExactly(observations, n, j);
      } else {
        FiringIsNoResolve(observations, n, j);
      }
    }
  }

  lemma {:induction false} FiringIsNoResolve(observations: seq<Observation>, n: Intervals, j: nat)
    requires j < |observations| && observations[j].Firing?
    ensures !Log(observations, n)[j].Resolved?
  {
    hide Log, View;
    LogAt(observations, n, j);
  }

  /** Adjacency matters. A fingerprint that flaps is attempted, and delivered, on every change:
      neither interval separates the first and third of these observations. */
  lemma {:induction false} FlappingBypassesIntervals(a: string, b: string, t: int, n: Intervals, delivered: bool)
    requires a != b && t > 0
    ensures var log := Log([Firing(a, t, delivered), Firing(b, t + 1, delivered), Firing(a, t + 2, delivered)], n);
            log == [Fired(a, t, delivered), Fired(b, t + 1, delivered), Fired(a, t + 2, delivered)]
  {
    var o := [Firing(a, t, delivered), Firing(b, t + 1, delivered), Firing(a, t + 2, delivered)];
    LogAt(o, n, 0);
    LogAt(o, n, 1);
    LogAt(o, n, 2);
    var log := Log(o, n);
    assert log[..0] == [];
    assert log[..1] == [Fired(a, t, delivered)] && log[..1][..0] == [];
    assert log[1] == Fired(b, t + 1, delivered);
    assert log[..2] == [log[0], log[1]] && log[..2][..1] == log[..1];
  }

  /** A firing observation that is held back still forgets the failed recovery attempt before it, so
      two recovery attempts of one incident are two units apart, whatever the retry interval. */
  lemma {:induction false} HeldFiringBringsRecoveryBack(f: string, t: int, n: Intervals)
    requires t > 0 && n.retry > 2
    ensures Log([Firing(f, t, true), Recovered(t + 1, false), Firing(f, t + 2, true), Recovered(t + 3, false)], n)
         == [Fired(f, t, true), Resolved(t + 1, false), Held(f, t + 2), Resolved(t + 3, false)]
  {
    var o := [Firing(f, t, true), Recovered(t + 1, false), Firing(f, t + 2, true), Recovered(t + 3, false)];
    LogAt(o, n, 0);
    LogAt(o, n, 1);
    LogAt(o, n, 2);
    LogAt(o, n, 3);
    var log := Log(o, n);
    assert log[..0] == [];
    assert log[..1] == [Fired(f, t, true)] && log[..1][..0] == [];
    assert log[1] == Resolved(t + 1, false);
    assert log[..2] == [log[0], log[1]] && log[..2][..1] == log[..1];
    assert log[2] == Held(f, t + 2);
    assert log[..3] == [log[0], log[1], log[2]] && log[..3][..2] == log[..2];
  }
}
