/** The audit exporter's bounded queue, its single worker and its bounded retry, over every
    interleaving of producers with the worker's attempts. */
module ExporterQueue {
  import opened Text

  /** One delivery attempt: the events producers offer while it runs and during the back-off that
      follows, whether it succeeded, and whether the context ended during the back-off. */
  datatype Try<E> = Try(arrivals: seq<E>, ok: bool, cancelled: bool)

  /** One turn of the worker's select: events offered before it, whether it sees the context end,
      and how the attempts for the event it takes would go. */
  datatype Turn<!E> = Turn(arrivals: seq<E>, stops: bool, tries: nat -> Try<E>)

  datatype Outcome<E> = Outcome(event: E, attempts: nat, delivered: bool)

  /** `accepted` and `outcomes` are histories: what Export returned true for, and what became of
      the events the worker is done with. */
  datatype State<E> = State(
    queue: seq<E>, current: Option<E>, dropped: nat, failed: nat, accepted: seq<E>, outcomes: seq<Outcome<E>>)

  datatype Limits = Limits(capacity: nat, maxAttempts: nat)

  // ------------------------------------------------------------- what happens

  function Offer<E>(s: State<E>, e: E, limits: Limits): State<E> {
    if |s.queue| < limits.capacity then s.(queue := s.queue + [e], accepted := s.accepted + [e])
    else s.(dropped := s.dropped + 1)
  }

  function OfferAll<E>(s: State<E>, es: seq<E>, limits: Limits): State<E>
    decreases |es|
  {
    if es == [] then s else OfferAll(Offer(s, es[0], limits), es[1..], limits)
  }

  function Settle<E>(s: State<E>, attempts: nat, delivered: bool): State<E>
    requires s.current.Some?
  {
    s.(current := None, failed := s.failed + if delivered then 0 else 1,
       outcomes := s.outcomes + [Outcome(s.current.value, attempts, delivered)])
  }

  /** The attempts from number `n` on. */
  function Retry<E>(s: State<E>, tries: nat -> Try<E>, n: nat, limits: Limits): State<E>
    requires s.current.Some? && 1 <= n <= limits.maxAttempts
    decreases limits.maxAttempts - n
  {
    var t := tries(n);
    OfferingKeepsCurrent(s, t.arrivals, limits);
    var s1 := OfferAll(s, t.arrivals, limits);
    if t.ok then Settle(s1, n, true)
    else if n == limits.maxAttempts || t.cancelled then Settle(s1, n, false)
    else Retry(s1, tries, n + 1, limits)
  }

  function Work<E>(s: State<E>, turn: Turn<E>, limits: Limits): State<E>
    requires s.current.None? && limits.maxAttempts >= 1
  {
    var s1 := OfferAll(s, turn.arrivals, limits);
    if turn.stops || s1.queue == [] then s1
    else Retry(s1.(queue := s1.queue[1..], current := Some(s1.queue[0])), turn.tries, 1, limits)
  }

  /** The worker's loop over a script of turns; it ends when it sees the context end. */
  function Run<E>(s: State<E>, turns: seq<Turn<E>>, limits: Limits): State<E>
    requires s.current.None? && limits.maxAttempts >= 1
    decreases |turns|
  {
    if turns == [] then s
    else
      OfferingKeepsCurrent(s, turns[0].arrivals, limits);
      WorkLeavesNothingInFlight(s, turns[0], limits);
      var s1 := Work(s, turns[0], limits);
      if turns[0].stops then s1 else Run(s1, turns[1..], limits)
  }

  lemma {:induction false} OfferingKeepsCurrent<E>(s: State<E>, es: seq<E>, limits: Limits)
    ensures OfferAll(s, es, limits).current == s.current
    decreases |es|
  {
    if es != [] {
      OfferingKeepsCurrent(Offer(s, es[0], limits), es[1..], limits);
    }
  }

  lemma {:induction false} RetryEnds<E>(s: State<E>, tries: nat -> Try<E>, n: nat, limits: Limits)
    requires s.current.Some? && 1 <= n <= limits.maxAttempts
    ensures Retry(s, tries, n, limits).current.None?
    decreases limits.maxAttempts - n
  {
    OfferingKeepsCurrent(s, tries(n).arrivals, limits);
    if !tries(n).ok && n != limits.maxAttempts && !tries(n).cancelled {
      RetryEnds(OfferAll(s, tries(n).arrivals, limits), tries, n + 1, limits);
    }
  }

  lemma {:induction false} WorkLeavesNothingInFlight<E>(s: State<E>, turn: Turn<E>, limits: Limits)
    requires s.current.None? && limits.maxAttempts >= 1
    ensures Work(s, turn, limits).current.None?
  {
    OfferingKeepsCurrent(s, turn.arrivals, limits);
    var s1 := OfferAll(s, turn.arrivals, limits);
    if !turn.stops && s1.queue != [] {
      RetryEnds(s1.(queue := s1.queue[1..], current := Some(s1.queue[0])), turn.tries, 1, limits);
    }
  }

  // ------------------------------------------------------------------ the books

  function Processed<E>(outcomes: seq<Outcome<E>>): (r: seq<E>)
    ensures |r| == |outcomes|
  {
    seq(|outcomes|, i requires 0 <= i < |outcomes| => outcomes[i].event)
  }

  function Failures<E>(outcomes: seq<Outcome<E>>): nat {
    if outcomes == [] then 0
    else Failures(outcomes[..|outcomes| - 1]) + if outcomes[|outcomes| - 1].delivered then 0 else 1
  }

  function Deliveries<E>(outcomes: seq<Outcome<E>>): nat {
    if outcomes == [] then 0
    else Deliveries(outcomes[..|outcomes| - 1]) + if outcomes[|outcomes| - 1].delivered then 1 else 0
  }

  function InFlight<E>(s: State<E>): seq<E> {
    if s.current.Some? then [s.current.value] else []
  }

  /** The books balance: accepted events are, in order, the finished ones, the one in flight and
      the queued ones; the counter counts the failures; nothing exceeds its bound. */
  ghost predicate Balanced<E>(s: State<E>, limits: Limits) {
    && |s.queue| <= limits.capacity
    && s.accepted == Processed(s.outcomes) + InFlight(s) + s.queue
    && s.failed == Failures(s.outcomes)
    && (forall i :: 0 <= i < |s.outcomes| ==> 1 <= s.outcomes[i].attempts <= limits.maxAttempts)
  }

  lemma {:induction false} OfferBalances<E>(s: State<E>, e: E, limits: Limits)
    requires Balanced(s, limits)
    ensures Balanced(Offer(s, e, limits), limits)
  {
    hide Processed, Failures;
    var done := Processed(s.outcomes) + InFlight(s);
    assert done + s.queue + [e] == done + (s.queue + [e]);
  }

  lemma {:induction false} OfferAllBalances<E>(s: State<E>, es: seq<E>, limits: Limits)
    requires Balanced(s, limits)
    ensures Balanced(OfferAll(s, es, limits), limits)
    decreases |es|
  {
    if es != [] {
      OfferBalances(s, es[0], limits);
      OfferAllBalances(Offer(s, es[0], limits), es[1..], limits);
    }
  }

  lemma {:induction false} SettleBalances<E>(s: State<E>, attempts: nat, delivered: bool, limits: Limits)
    requires s.current.Some? && Balanced(s, limits) && 1 <= attempts <= limits.maxAttempts
    ensures Balanced(Settle(s, attempts, delivered), limits)
  {
    var o := Outcome(s.current.value, attempts, delivered);
    assert (s.outcomes + [o])[..|s.outcomes|] == s.outcomes;
    assert Processed(s.outcomes + [o]) == Processed(s.outcomes) + [s.current.value];
  }

  lemma {:induction false} RetryBalances<E>(s: State<E>, tries: nat -> Try<E>, n: nat, limits: Limits)
    requires s.current.Some? && 1 <= n <= limits.maxAttempts && Balanced(s, limits)
    ensures Balanced(Retry(s, tries, n, limits), limits)
    decreases limits.maxAttempts - n
  {
    hide Balanced, Settle, OfferAll;
    var t := tries(n);
    var s1 := OfferAll(s, t.arrivals, limits);
    OfferingKeepsCurrent(s, t.arrivals, limits);
    OfferAllBalances(s, t.arrivals, limits);
    SettleBalances(s1, n, t.ok, limits);
    if !t.ok && n != limits.maxAttempts && !t.cancelled {
      RetryBalances(s1, tries, n + 1, limits);
    }
  }

  lemma {:induction false} TakeBalances<E>(s: State<E>, limits: Limits)
    requires Balanced(s, limits) && s.current.None? && s.queue != []
    ensures Balanced(s.(queue := s.queue[1..], current := Some(s.queue[0])), limits)
  {
    hide Processed, Failures;
    assert s.queue == [s.queue[0]] + s.queue[1..];
    assert Processed(s.outcomes) + [] + s.queue == Processed(s.outcomes) + [s.queue[0]] + s.queue[1..];
  }

  lemma {:induction false} WorkBalances<E>(s: State<E>, turn: Turn<E>, limits: Limits)
    requires s.current.None? && limits.maxAttempts >= 1 && Balanced(s, limits)
    ensures Balanced(Work(s, turn, limits), limits)
  {
    hide Balanced, Retry, OfferAll;
    OfferingKeepsCurrent(s, turn.arrivals, limits);
    OfferAllBalances(s, turn.arrivals, limits);
    var s1 := OfferAll(s, turn.arrivals, limits);
    if !turn.stops && s1.queue != [] {
      TakeBalances(s1, limits);
      RetryBalances(s1.(queue := s1.queue[1..], current := Some(s1.queue[0])), turn.tries, 1, limits);
    }
  }

  function Empty<E>(): State<E> { State([], None, 0, 0, [], []) }

  lemma {:induction false} OutcomesSplit<E>(outcomes: seq<Outcome<E>>)
    ensures |outcomes| == Deliveries(outcomes) + Failures(outcomes)
  {
    if outcomes != [] {
      OutcomesSplit(outcomes[..|outcomes| - 1]);
    }
  }

  // ------------------------------------------------------------ every offer counts

  /** All events producers offered during the run, in order. */
  function OfferedIn<E>(s: State<E>, tries: nat -> Try<E>, n: nat, limits: Limits): seq<E>
    requires 1 <= n <= limits.maxAttempts
    decreases limits.maxAttempts - n
  {
    var t := tries(n);
    if t.ok || n == limits.maxAttempts || t.cancelled then t.arrivals
    else t.arrivals + OfferedIn(OfferAll(s, t.arrivals, limits), tries, n + 1, limits)
  }

  function Offered<E>(s: State<E>, turns: seq<Turn<E>>, limits: Limits): seq<E>
    requires s.current.None? && limits.maxAttempts >= 1
    decreases |turns|
  {
    if turns == [] then []
    else
      WorkLeavesNothingInFlight(s, turns[0], limits);
      var t := turns[0];
      var s1 := OfferAll(s, t.arrivals, limits);
      if t.stops then t.arrivals
      else
        t.arrivals
        + (if s1.queue == [] then [] else OfferedIn(s1.(queue := s1.queue[1..], current := Some(s1.queue[0])), t.tries, 1, limits))
        + Offered(Work(s, t, limits), turns[1..], limits)
  }

  /** `part` is `whole` with some elements left out. */
  predicate Subsequence<E(==)>(part: seq<E>, whole: seq<E>) {
    part == [] || (whole != [] && ((part[|part| - 1] == whole[|whole| - 1] && Subsequence(part[..|part| - 1], whole[..|whole| - 1]))
                                   || Subsequence(part, whole[..|whole| - 1])))
  }

  /** What a stretch of the run adds: every offer is accepted in order or counted as dropped. */
  ghost predicate Accounts<E>(before: State<E>, after: State<E>, offers: seq<E>, history: seq<E>) {
    && |after.accepted| + after.dropped == |before.accepted| + before.dropped + |offers|
    && (Subsequence(before.accepted, history) ==> Subsequence(after.accepted, history + offers))
  }

  lemma {:induction false} AccountsChain<E>(a: State<E>, b: State<E>, c: State<E>, x: seq<E>, y: seq<E>, history: seq<E>)
    requires Accounts(a, b, x, history) && Accounts(b, c, y, history + x)
    ensures Accounts(a, c, x + y, history)
  {
    hide Subsequence;
    assert history + (x + y) == history + x + y;
  }

  lemma {:induction false} SubsequenceGrows<E>(part: seq<E>, whole: seq<E>, e: E)
    requires Subsequence(part, whole)
    ensures Subsequence(part + [e], whole + [e]) && Subsequence(part, whole + [e])
  {
    assert (part + [e])[..|part|] == part && (whole + [e])[..|whole|] == whole;
  }

  lemma {:induction false} OfferAccounts<E>(s: State<E>, es: seq<E>, limits: Limits, history: seq<E>)
    ensures Accounts(s, OfferAll(s, es, limits), es, history)
    decreases |es|
  {
    hide Subsequence;
    if es == [] {
      assert history + [] == history;
    } else {
      var s1 := Offer(s, es[0], limits);
      if Subsequence(s.accepted, history) {
        SubsequenceGrows(s.accepted, history, es[0]);
      }
      assert Accounts(s, s1, [es[0]], history);
      OfferAccounts(s1, es[1..], limits, history + [es[0]]);
      AccountsChain(s, s1, OfferAll(s, es, limits), [es[0]], es[1..], history);
      assert [es[0]] + es[1..] == es;
    }
  }

  lemma {:induction false} RetryAccounts<E>(s: State<E>, tries: nat -> Try<E>, n: nat, limits: Limits, history: seq<E>)
    requires s.current.Some? && 1 <= n <= limits.maxAttempts
    ensures Accounts(s, Retry(s, tries, n, limits), OfferedIn(s, tries, n, limits), history)
    decreases limits.maxAttempts - n
  {
    hide OfferAll, Subsequence;
    var t := tries(n);
    var s1 := OfferAll(s, t.arrivals, limits);
    OfferingKeepsCurrent(s, t.arrivals, limits);
    OfferAccounts(s, t.arrivals, limits, history);
    if !t.ok && n != limits.maxAttempts && !t.cancelled {
      RetryAccounts(s1, tries, n + 1, limits, history + t.arrivals);
      AccountsChain(s, s1, Retry(s, tries, n, limits), t.arrivals, OfferedIn(s1, tries, n + 1, limits), history);
    }
  }

  lemma {:induction false} RunAccounts<E>(s: State<E>, turns: seq<Turn<E>>, limits: Limits, history: seq<E>)
    requires s.current.None? && limits.maxAttempts >= 1
    ensures Accounts(s, Run(s, turns, limits), Offered(s, turns, limits), history)
    decreases |turns|
  {
    hide OfferAll, Subsequence, Retry, OfferedIn;
    if turns == [] {
      assert history + [] == history;
    } else {
      var t := turns[0];
      var s1 := OfferAll(s, t.arrivals, limits);
      OfferingKeepsCurrent(s, t.arrivals, limits);
      WorkLeavesNothingInFlight(s, t, limits);
      OfferAccounts(s, t.arrivals, limits, history);
      if !t.stops {
        var s2 := Work(s, t, limits);
        var during := if s1.queue == [] then [] else OfferedIn(s1.(queue := s1.queue[1..], current := Some(s1.queue[0])), t.tries, 1, limits);
        if s1.queue != [] {
          RetryAccounts(s1.(queue := s1.queue[1..], current := Some(s1.queue[0])), t.tries, 1, limits, history + t.arrivals);
        } else {
          assert history + t.arrivals + during == history + t.arrivals;
        }
        AccountsChain(s, s1, s2, t.arrivals, during, history);
        RunAccounts(s2, turns[1..], limits, history + (t.arrivals + during));
        AccountsChain(s, s2, Run(s, turns, limits), t.arrivals + during, Offered(s2, turns[1..], limits), history);
      }
    }
  }

  /** Every offered event is either accepted, in its place, or counted as dropped. */
  lemma {:induction false} EveryOfferCounts<E>(turns: seq<Turn<E>>, limits: Limits)
    requires limits.maxAttempts >= 1
    ensures var s := Run(Empty(), turns, limits);
            var offers := Offered(Empty(), turns, limits);
            |offers| == |s.accepted| + s.dropped && Subsequence(s.accepted, offers)
  {
    hide Run, Offered;
    var offers := Offered(Empty(), turns, limits);
    RunAccounts(Empty(), turns, limits, []);
    assert [] + offers == offers;
  }

  // ------------------------------------------------------------ every single step

  /** What can happen next, in any order: a producer's call, the worker's receive, the end of one
      attempt, and the end of the context during a back-off. */
  datatype Event<E> = Exported(event: E) | Take | Attempted(ok: bool) | Cancelled

  /** `tried` counts the failed attempts for the event in flight. */
  datatype Machine<E> = Machine(s: State<E>, tried: nat)

  /** One step; an event that is not possible in the current state changes nothing. */
  function Move<E>(m: Machine<E>, e: Event<E>, limits: Limits): Machine<E> {
    match e
    case Exported(x) => m.(s := Offer(m.s, x, limits))
    case Take =>
      if m.s.current.Some? || m.s.queue == [] then m
      else Machine(m.s.(queue := m.s.queue[1..], current := Some(m.s.queue[0])), 0)
    case Attempted(ok) =>
      if m.s.current.None? then m
      else if ok || m.tried + 1 == limits.maxAttempts then Machine(Settle(m.s, m.tried + 1, ok), 0)
      else m.(tried := m.tried + 1)
    case Cancelled =>
      if m.s.current.None? || m.tried == 0 then m else Machine(Settle(m.s, m.tried, false), 0)
  }

  function Moves<E>(m: Machine<E>, events: seq<Event<E>>, limits: Limits): Machine<E> {
    if events == [] then m else Move(Moves(m, events[..|events| - 1], limits), events[|events| - 1], limits)
  }

  function Calls<E>(events: seq<Event<E>>): seq<E> {
    if events == [] then []
    else
      var e := events[|events| - 1];
      Calls(events[..|events| - 1]) + if e.Exported? then [e.event] else []
  }

  function Initial<E>(): Machine<E> { Machine(Empty(), 0) }

  ghost predicate Sound<E>(m: Machine<E>, limits: Limits) {
    Balanced(m.s, limits) && m.tried < limits.maxAttempts && (m.s.current.None? ==> m.tried == 0)
  }

  lemma {:induction false} MoveKeepsSound<E>(m: Machine<E>, e: Event<E>, limits: Limits)
    requires Sound(m, limits)
    ensures Sound(Move(m, e, limits), limits)
  {
    hide Balanced;
    match e
    case Exported(x) => OfferBalances(m.s, x, limits);
    case Take => if m.s.current.None? && m.s.queue != [] { TakeBalances(m.s, limits); }
    case Attempted(ok) => if m.s.current.Some? { SettleBalances(m.s, m.tried + 1, ok, limits); }
    case Cancelled => if m.s.current.Some? && m.tried > 0 { SettleBalances(m.s, m.tried, false, limits); }
  }

  lemma {:induction false} MovesAreSound<E>(events: seq<Event<E>>, limits: Limits)
    requires limits.maxAttempts >= 1
    ensures Sound(Moves(Initial(), events, limits), limits)
  {
    hide Move;
    if events == [] {
      assert Processed<E>([]) == [];
    } else {
      MovesAreSound(events[..|events| - 1], limits);
      MoveKeepsSound(Moves(Initial(), events[..|events| - 1], limits), events[|events| - 1], limits);
    }
  }

  lemma {:induction false} MovesCount<E>(events: seq<Event<E>>, limits: Limits)
    ensures var s := Moves(Initial(), events, limits).s;
            |Calls(events)| == |s.accepted| + s.dropped && Subsequence(s.accepted, Calls(events))
  {
    hide Subsequence;
    if events == [] {
      NothingIsSubsequence<E>();
    } else {
      var front, e := events[..|events| - 1], events[|events| - 1];
      MovesCount(front, limits);
      var s := Moves(Initial(), front, limits).s;
      if e.Exported? {
        SubsequenceGrows(s.accepted, Calls(front), e.event);
      } else {
        assert Calls(front) + [] == Calls(front);
      }
    }
  }

  lemma {:induction false} NothingIsSubsequence<E>()
    ensures Subsequence<E>([], [])
  {
  }

  /** Conservation in every state of every run, attempts and back-offs included: each accepted event
      is delivered, failed, in flight or queued; the events handled so far, the one in flight and the
      queue are the accepted ones in order; the queue is within capacity; each finished event was
      sent between 1 and MaxAttempts times and the one in flight fewer than that; and accepted and
      dropped events together are the offered ones. */
  lemma {:induction false} Conservation<E>(events: seq<Event<E>>, limits: Limits)
    requires limits.maxAttempts >= 1
    ensures var m := Moves(Initial(), events, limits);
            var s := m.s;
            && |s.accepted| == Deliveries(s.outcomes) + s.failed + |s.queue| + |InFlight(s)|
            && s.accepted == Processed(s.outcomes) + InFlight(s) + s.queue
            && |s.queue| <= limits.capacity && m.tried < limits.maxAttempts
            && (forall i :: 0 <= i < |s.outcomes| ==> 1 <= s.outcomes[i].attempts <= limits.maxAttempts)
            && |Calls(events)| == |s.accepted| + s.dropped && Subsequence(s.accepted, Calls(events))
  {
    hide Moves, Calls, Subsequence, Processed, Deliveries, Failures;
    MovesAreSound(events, limits);
    MovesCount(events, limits);
    OutcomesSplit(Moves(Initial(), events, limits).s.outcomes);
  }

  // -------------------------------------------- the worker's loop takes these steps

  function ExportEvents<E>(es: seq<E>): (r: seq<Event<E>>)
    ensures |r| == |es|
  {
    seq(|es|, i requires 0 <= i < |es| => Exported(es[i]))
  }

  function RetryEvents<E>(tries: nat -> Try<E>, n: nat, limits: Limits): seq<Event<E>>
    requires 1 <= n <= limits.maxAttempts
    decreases limits.maxAttempts - n
  {
    var t := tries(n);
    var now := ExportEvents(t.arrivals) + [Attempted(t.ok)];
    if t.ok || n == limits.maxAttempts then now
    else if t.cancelled then now + [Cancelled]
    else now + RetryEvents(tries, n + 1, limits)
  }

  function TurnEvents<E>(s: State<E>, turn: Turn<E>, limits: Limits): seq<Event<E>>
    requires limits.maxAttempts >= 1
  {
    ExportEvents(turn.arrivals)
    + if turn.stops || OfferAll(s, turn.arrivals, limits).queue == [] then [] else [Take] + RetryEvents(turn.tries, 1, limits)
  }

  function RunEvents<E>(s: State<E>, turns: seq<Turn<E>>, limits: Limits): seq<Event<E>>
    requires s.current.None? && limits.maxAttempts >= 1
    decreases |turns|
  {
    if turns == [] then []
    else
      WorkLeavesNothingInFlight(s, turns[0], limits);
      TurnEvents(s, turns[0], limits)
      + if turns[0].stops then [] else RunEvents(Work(s, turns[0], limits), turns[1..], limits)
  }

  lemma {:induction false} MovesConcat<E>(m: Machine<E>, a: seq<Event<E>>, b: seq<Event<E>>, limits: Limits)
    ensures Moves(m, a + b, limits) == Moves(Moves(m, a, limits), b, limits)
  {
    hide Move;
    if b == [] {
      assert a + b == a;
    } else {
      MovesConcat(m, a, b[..|b| - 1], limits);
      assert (a + b)[..|a + b| - 1] == a + b[..|b| - 1];
    }
  }

  lemma {:induction false} OneMove<E>(m: Machine<E>, e: Event<E>, limits: Limits)
    ensures Moves(m, [e], limits) == Move(m, e, limits)
  {
    hide Move;
    assert [e][..0] == [];
  }

  lemma {:induction false} ExportsAreOffers<E>(m: Machine<E>, es: seq<E>, limits: Limits)
    ensures Moves(m, ExportEvents(es), limits) == m.(s := OfferAll(m.s, es, limits))
    decreases |es|
  {
    hide Offer;
    if es == [] {
      assert ExportEvents(es) == [];
    } else {
      var next := m.(s := Offer(m.s, es[0], limits));
      assert ExportEvents(es) == [Exported(es[0])] + ExportEvents(es[1..]);
      MovesConcat(m, [Exported(es[0])], ExportEvents(es[1..]), limits);
      OneMove(m, Exported(es[0]), limits);
      ExportsAreOffers(next, es[1..], limits);
    }
  }

  lemma {:induction false} RetryTakesSteps<E>(s: State<E>, tries: nat -> Try<E>, n: nat, limits: Limits)
    requires s.current.Some? && 1 <= n <= limits.maxAttempts
    ensures Moves(Machine(s, n - 1), RetryEvents(tries, n, limits), limits) == Machine(Retry(s, tries, n, limits), 0)
    decreases limits.maxAttempts - n
  {
    hide OfferAll, Moves, ExportEvents;
    var m, t := Machine(s, n - 1), tries(n);
    var s1 := OfferAll(s, t.arrivals, limits);
    var now := ExportEvents(t.arrivals) + [Attempted(t.ok)];
    OfferingKeepsCurrent(s, t.arrivals, limits);
    ExportsAreOffers(m, t.arrivals, limits);
    MovesConcat(m, ExportEvents(t.arrivals), [Attempted(t.ok)], limits);
    OneMove(Machine(s1, n - 1), Attempted(t.ok), limits);
    if !t.ok && n != limits.maxAttempts {
      if t.cancelled {
        MovesConcat(m, now, [Cancelled], limits);
        OneMove(Machine(s1, n), Cancelled, limits);
      } else {
        MovesConcat(m, now, RetryEvents(tries, n + 1, limits), limits);
        RetryTakesSteps(s1, tries, n + 1, limits);
      }
    }
  }

  lemma {:induction false} NoMoves<E>(m: Machine<E>, limits: Limits)
    ensures Moves(m, [], limits) == m
  {
  }

  lemma {:induction false} WorkTakesSteps<E>(s: State<E>, turn: Turn<E>, limits: Limits)
    requires s.current.None? && limits.maxAttempts >= 1
    ensures Moves(Machine(s, 0), TurnEvents(s, turn, limits), limits) == Machine(Work(s, turn, limits), 0)
  {
    hide OfferAll, Moves, ExportEvents, RetryEvents, Retry;
    var s1 := OfferAll(s, turn.arrivals, limits);
    OfferingKeepsCurrent(s, turn.arrivals, limits);
    ExportsAreOffers(Machine(s, 0), turn.arrivals, limits);
    if turn.stops || s1.queue == [] {
      assert ExportEvents(turn.arrivals) + [] == ExportEvents(turn.arrivals);
    } else {
      var taken := s1.(queue := s1.queue[1..], current := Some(s1.queue[0]));
      var retry := RetryEvents(turn.tries, 1, limits);
      MovesConcat(Machine(s, 0), ExportEvents(turn.arrivals), [Take] + retry, limits);
      MovesConcat(Machine(s1, 0), [Take], retry, limits);
      OneMove(Machine(s1, 0), Take, limits);
      RetryTakesSteps(taken, turn.tries, 1, limits);
    }
  }

  /** Every run of the worker's loop is a run of these steps, so `Conservation` holds at each of them. */
  lemma {:induction false} RunTakesSteps<E>(s: State<E>, turns: seq<Turn<E>>, limits: Limits)
    requires s.current.None? && limits.maxAttempts >= 1
    ensures Moves(Machine(s, 0), RunEvents(s, turns, limits), limits) == Machine(Run(s, turns, limits), 0)
    decreases |turns|
  {
    hide Moves, Work, TurnEvents;
    if turns == [] {
      NoMoves(Machine(s, 0), limits);
    } else {
      OfferingKeepsCurrent(s, turns[0].arrivals, limits);
      WorkLeavesNothingInFlight(s, turns[0], limits);
      var s1 := Work(s, turns[0], limits);
      var now := TurnEvents(s, turns[0], limits);
      WorkTakesSteps(s, turns[0], limits);
      if turns[0].stops {
        assert now + [] == now;
      } else {
        MovesConcat(Machine(s, 0), now, RunEvents(s1, turns[1..], limits), limits);
        RunTakesSteps(s1, turns[1..], limits);
      }
    }
  }

  // ---------------------------------------------------------------- what retry means

  /** Delivered exactly when some attempt succeeds before the attempts run out or the context ends. */
  lemma {:induction false} RetryMeaning<E>(s: State<E>, tries: nat -> Try<E>, n: nat, limits: Limits)
    requires s.current.Some? && 1 <= n <= limits.maxAttempts
    ensures var r := Retry(s, tries, n, limits);
            && |r.outcomes| == |s.outcomes| + 1 && r.outcomes[..|s.outcomes|] == s.outcomes
            && var o := r.outcomes[|s.outcomes|];
            && o.event == s.current.value && n <= o.attempts <= limits.maxAttempts
            && (forall k :: n <= k < o.attempts ==> !tries(k).ok && !tries(k).cancelled)
            && (o.delivered <==> tries(o.attempts).ok)
            && (!o.delivered ==> o.attempts == limits.maxAttempts || tries(o.attempts).cancelled)
    decreases limits.maxAttempts - n
  {
    var t := tries(n);
    OfferingKeepsCurrent(s, t.arrivals, limits);
    OfferingKeepsOutcomes(s, t.arrivals, limits);
    if !t.ok && n != limits.maxAttempts && !t.cancelled {
      RetryMeaning(OfferAll(s, t.arrivals, limits), tries, n + 1, limits);
    }
  }

  lemma {:induction false} OfferingKeepsOutcomes<E>(s: State<E>, es: seq<E>, limits: Limits)
    ensures OfferAll(s, es, limits).outcomes == s.outcomes
    decreases |es|
  {
    if es != [] {
      OfferingKeepsOutcomes(Offer(s, es[0], limits), es[1..], limits);
    }
  }

  /** With no new offers and no shutdown, as many turns as there are queued events empty the queue:
      every accepted event then has its outcome. */
  lemma {:induction false} Drains<E>(s: State<E>, turns: seq<Turn<E>>, limits: Limits)
    requires s.current.None? && limits.maxAttempts >= 1 && Balanced(s, limits) && |turns| >= |s.queue|
    requires forall i :: 0 <= i < |turns| ==> !turns[i].stops && turns[i].arrivals == []
    requires forall i, k :: 0 <= i < |turns| ==> turns[i].tries(k).arrivals == []
    ensures var r := Run(s, turns, limits); r.queue == [] && Processed(r.outcomes) == r.accepted == s.accepted
    decreases |turns|
  {
    hide Balanced, Processed;
    if turns == [] {
      assert Processed(s.outcomes) == s.accepted by { NothingPending(s, limits); }
    } else {
      var t := turns[0];
      WorkLeavesNothingInFlight(s, t, limits);
      WorkBalances(s, t, limits);
      if s.queue != [] {
        var taken := s.(queue := s.queue[1..], current := Some(s.queue[0]));
        QuietRetry(taken, t.tries, 1, limits);
      }
      Drains(Work(s, t, limits), turns[1..], limits);
    }
  }

  lemma {:induction false} NothingPending<E>(s: State<E>, limits: Limits)
    requires Balanced(s, limits) && s.current.None? && s.queue == []
    ensures Processed(s.outcomes) == s.accepted
  {
  }

  lemma {:induction false} QuietRetry<E>(s: State<E>, tries: nat -> Try<E>, n: nat, limits: Limits)
    requires s.current.Some? && 1 <= n <= limits.maxAttempts
    requires forall k :: tries(k).arrivals == []
    ensures var r := Retry(s, tries, n, limits); r.queue == s.queue && r.accepted == s.accepted
    decreases limits.maxAttempts - n
  {
    assert tries(n).arrivals == [];
    if !tries(n).ok && n != limits.maxAttempts && !tries(n).cancelled {
      QuietRetry(s, tries, n + 1, limits);
    }
  }

  // -------------------------------------------------------------------- the exporter

  class Exporter<E(==)> {
    const limits: Limits
    var queue: seq<E>
    var current: Option<E>
    var dropped: nat
    var failed: nat
    ghost var accepted: seq<E>
    ghost var outcomes: seq<Outcome<E>>

    ghost function Books(): State<E>
      reads this
    {
      State(queue, current, dropped, failed, accepted, outcomes)
    }

    constructor (capacity: nat, maxAttempts: nat)
      ensures Books() == Empty() && limits == Limits(capacity, maxAttempts)
    {
      limits := Limits(capacity, maxAttempts);
      queue, current, dropped, failed, accepted, outcomes := [], None, 0, 0, [], [];
    }

    method Export(event: E) returns (ok: bool)
      modifies this
      ensures Books() == Offer(old(Books()), event, limits)
      ensures ok <==> old(|queue|) < limits.capacity
    {
      if |queue| < limits.capacity {
        queue, accepted := queue + [event], accepted + [event];
        return true;
      }
      dropped := dropped + 1;
      return false;
    }

    method ExportAll(events: seq<E>)
      modifies this
      ensures Books() == OfferAll(old(Books()), events, limits)
    {
      for i := 0 to |events|
        invariant OfferAll(Books(), events[i..], limits) == OfferAll(old(Books()), events, limits)
      {
        assert events[i..][1..] == events[i + 1..];
        var _ := Export(events[i]);
      }
    }

    /** sendWithRetry for the event in flight, together with the worker's failure count. */
    method SendWithRetry(tries: nat -> Try<E>)
      requires current.Some? && limits.maxAttempts >= 1
      modifies this
      ensures Books() == Retry(old(Books()), tries, 1, limits)
    {
      var attempt := 1;
      while true
        invariant 1 <= attempt <= limits.maxAttempts && current.Some?
        invariant Retry(Books(), tries, attempt, limits) == Retry(old(Books()), tries, 1, limits)
        decreases limits.maxAttempts - attempt
      {
        var t := tries(attempt);
        OfferingKeepsCurrent(Books(), t.arrivals, limits);
        ExportAll(t.arrivals);
        if t.ok || attempt == limits.maxAttempts || t.cancelled {
          outcomes := outcomes + [Outcome(current.value, attempt, t.ok)];
          current := None;
          if !t.ok {
            failed := failed + 1;
          }
          return;
        }
        attempt := attempt + 1;
      }
    }

    /** The goroutine Start launches. */
    method Start(turns: seq<Turn<E>>)
      requires current.None? && limits.maxAttempts >= 1
      modifies this
      ensures current.None? && Books() == Run(old(Books()), turns, limits)
    {
      for i := 0 to |turns|
        invariant current.None?
        invariant Run(Books(), turns[i..], limits) == Run(old(Books()), turns, limits)
      {
        var turn := turns[i];
        ghost var before := Books();
        assert turns[i..][0] == turn && turns[i..][1..] == turns[i + 1..];
        OfferingKeepsCurrent(before, turn.arrivals, limits);
        WorkLeavesNothingInFlight(before, turn, limits);
        ExportAll(turn.arrivals);
        if turn.stops {
          return;
        }
        if queue != [] {
          current, queue := Some(queue[0]), queue[1..];
          SendWithRetry(turn.tries);
        }
        assert Books() == Work(before, turn, limits);
      }
    }
  }
}
