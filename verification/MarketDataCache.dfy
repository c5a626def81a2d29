/** The market data cache: the versioned kline and realtime scripts, their key expiry, and whole
    runs of writes to one key. Times are Redis milliseconds. */
module MarketDataCache {
  import opened Text

  const KLINE_TTL := 24 * 60 * 60 * 1000
  const REALTIME_TTL := 30 * 60 * 1000
  const DEPTH_TTL := 5 * 60 * 1000

  datatype Envelope = Envelope(source: string, revision: int, payload: string)

  /** A Redis key that expires: gone once the clock reaches `expiry`. */
  datatype Entry<T> = Entry(value: T, expiry: int)

  function Live<T>(e: Option<Entry<T>>, now: int): Option<T> {
    if e.Some? && now < e.value.expiry then Some(e.value.value) else None
  }

  // ------------------------------------------------------------------- klines

  function KlineCachePriority(source: string): (p: int)
    ensures p in {100, 200, 300}
  {
    if source == "market_ws" then 300 else if source == "derived" then 200 else 100
  }

  datatype Rank = Rank(priority: int, revision: int)

  predicate NoHigher(a: Rank, b: Rank) {
    a.priority < b.priority || (a.priority == b.priority && a.revision <= b.revision)
  }

  /** A Set call: when its script runs, the server's own clock, which stands in for a missing
      revision, and the stale time in force, which may change from call to call. */
  datatype Write = Write(at: int, clock: int, stale: nat, envelope: Envelope)

  /** The rank held in the meta key. The envelope that is stored keeps the revision it came with. */
  function RankOf(w: Write): Rank {
    Rank(KlineCachePriority(w.envelope.source), if w.envelope.revision <= 0 then w.clock else w.envelope.revision)
  }

  /** The two keys of one kline, and the history of the writes the script accepted. */
  datatype Kline = Kline(value: Option<Entry<Envelope>>, meta: Option<Entry<Rank>>, accepted: seq<Write>)

  const NO_RANK := Rank(0, 0)

  /** The script returns 0 on this condition: the live rank is above the incoming one. */
  predicate Refuses(k: Kline, w: Write) {
    var held := Live(k.meta, w.at);
    var prior := if held.Some? then held.value else NO_RANK;
    prior.priority > RankOf(w).priority || (prior.priority == RankOf(w).priority && prior.revision > RankOf(w).revision)
  }

  function AfterWrite(k: Kline, w: Write): Kline {
    if Refuses(k, w) then k
    else Kline(Some(Entry(w.envelope, w.at + KLINE_TTL)), Some(Entry(RankOf(w), w.at + w.stale)), k.accepted + [w])
  }

  function AfterWrites(k: Kline, writes: seq<Write>): Kline {
    if writes == [] then k else AfterWrite(AfterWrites(k, writes[..|writes| - 1]), writes[|writes| - 1])
  }

  const NO_KLINE := Kline(None, None, [])

  /** Redis runs the scripts one at a time, so their times do not decrease. */
  predicate InOrder(writes: seq<Write>) {
    forall i, j :: 0 <= i < j < |writes| ==> writes[i].at <= writes[j].at
  }

  /** The next accepted write comes within the stale time of the one at `i`. */
  predicate Follows(accepted: seq<Write>, i: nat)
    requires i + 1 < |accepted|
  {
    accepted[i + 1].at - accepted[i].at < accepted[i].stale
  }

  /** No stale time passes without an accepted write between `i` and `j`. */
  predicate Unlapsed(accepted: seq<Write>, i: nat, j: nat) {
    i <= j < |accepted| && forall m :: i <= m < j ==> Follows(accepted, m)
  }

  /** What holds after every write: both keys are the last accepted write's, and an accepted write
      that comes within the stale time of the one before is not below it in rank. */
  ghost predicate Consistent(k: Kline) {
    && (k.accepted == [] ==> k.value.None? && k.meta.None?)
    && (k.accepted != [] ==>
          var w := k.accepted[|k.accepted| - 1];
          k.value == Some(Entry(w.envelope, w.at + KLINE_TTL)) && k.meta == Some(Entry(RankOf(w), w.at + w.stale)))
    && InOrder(k.accepted)
    && forall i :: 0 <= i < |k.accepted| - 1 && Follows(k.accepted, i) ==>
         NoHigher(RankOf(k.accepted[i]), RankOf(k.accepted[i + 1]))
  }

  /** Acceptance, stated over the history alone. */
  predicate Due(accepted: seq<Write>, w: Write) {
    accepted == [] ||
    (var last := accepted[|accepted| - 1];
     w.at - last.at >= last.stale || NoHigher(RankOf(last), RankOf(w)))
  }

  lemma {:induction false} RefusalMeansHigherRank(k: Kline, w: Write)
    requires Consistent(k)
    ensures !Refuses(k, w) <==> Due(k.accepted, w)
  {
  }

  lemma {:induction false} WriteKeepsConsistent(k: Kline, w: Write)
    requires Consistent(k)
    requires forall i :: 0 <= i < |k.accepted| ==> k.accepted[i].at <= w.at
    ensures Consistent(AfterWrite(k, w))
  {
    hide KlineCachePriority;
    RefusalMeansHigherRank(k, w);
  }

  lemma {:induction false} RunIsConsistent(writes: seq<Write>)
    requires InOrder(writes)
    ensures Consistent(AfterWrites(NO_KLINE, writes))
    ensures forall i :: 0 <= i < |AfterWrites(NO_KLINE, writes).accepted| ==>
              AfterWrites(NO_KLINE, writes).accepted[i] in writes
  {
    hide Refuses, RankOf;
    if writes != [] {
      var earlier, w := writes[..|writes| - 1], writes[|writes| - 1];
      RunIsConsistent(earlier);
      var k := AfterWrites(NO_KLINE, earlier);
      forall i | 0 <= i < |k.accepted| ensures k.accepted[i].at <= w.at && k.accepted[i] in writes {
        var j :| 0 <= j < |earlier| && earlier[j] == k.accepted[i];
        assert writes[j] == earlier[j];
      }
      WriteKeepsConsistent(k, w);
    }
  }

  /** In every run, whatever the stale times, accepted writes are in rank order as long as no stale
      time passes between them without another. */
  lemma {:induction false} AcceptedWritesAreOrdered(writes: seq<Write>, i: nat, j: nat)
    requires InOrder(writes)
    requires var a := AfterWrites(NO_KLINE, writes).accepted; i < j && Unlapsed(a, i, j)
    ensures var a := AfterWrites(NO_KLINE, writes).accepted; NoHigher(RankOf(a[i]), RankOf(a[j]))
    decreases j
  {
    hide AfterWrites;
    RunIsConsistent(writes);
    if i < j - 1 {
      AcceptedWritesAreOrdered(writes, i, j - 1);
    }
  }

  /** In every run, the live value is the last accepted envelope until a day after it was written. */
  lemma {:induction false} LiveValueIsLastAccepted(writes: seq<Write>, now: int)
    requires InOrder(writes)
    ensures var k := AfterWrites(NO_KLINE, writes);
            Live(k.value, now) ==
            if k.accepted != [] && now - k.accepted[|k.accepted| - 1].at < KLINE_TTL
            then Some(k.accepted[|k.accepted| - 1].envelope) else None
  {
    hide Refuses, RankOf;
    RunIsConsistent(writes);
  }

  /** In every run, the next write is accepted exactly when nothing was accepted before, the stale
      time has passed since the last accepted write, or the rank does not go down. */
  lemma {:induction false} AcceptanceIsExact(writes: seq<Write>, w: Write)
    requires InOrder(writes + [w])
    ensures var before := AfterWrites(NO_KLINE, writes);
            var after := AfterWrites(NO_KLINE, writes + [w]);
            && (after.accepted == before.accepted + [w] <==> Due(before.accepted, w))
            && (after == before <==> !Due(before.accepted, w))
  {
    hide RankOf;
    assert (writes + [w])[..|writes|] == writes;
    forall i, j | 0 <= i < j < |writes| ensures writes[i].at <= writes[j].at {
      assert (writes + [w])[i] == writes[i] && (writes + [w])[j] == writes[j];
    }
    RunIsConsistent(writes);
    RefusalMeansHigherRank(AfterWrites(NO_KLINE, writes), w);
  }

  /** The live feed comes before derived klines, and these before every other source. */
  predicate Outranks(a: string, b: string) {
    (a == "market_ws" && b != "market_ws") || (a == "derived" && b != "market_ws" && b != "derived")
  }

  /** The revision a write competes with: the server's clock when it came with none. */
  function HeldRevision(w: Write): int { if w.envelope.revision <= 0 then w.clock else w.envelope.revision }

  lemma {:induction false} RankMeaning(a: Write, b: Write)
    ensures NoHigher(RankOf(a), RankOf(b)) <==>
            || Outranks(b.envelope.source, a.envelope.source)
            || (!Outranks(a.envelope.source, b.envelope.source) && HeldRevision(a) <= HeldRevision(b))
  {
    assert "market_ws" != "derived" by { assert "market_ws"[0] != "derived"[0]; }
  }

  /** In terms of sources: after any run, a write of a better source than the last accepted one is
      accepted whatever the revisions, and within the stale time one of a worse source is not; equal
      sources compare revisions. */
  lemma {:induction false} SourcesDecide(writes: seq<Write>, w: Write)
    requires InOrder(writes + [w])
    ensures var before := AfterWrites(NO_KLINE, writes);
            var after := AfterWrites(NO_KLINE, writes + [w]);
            && (before.accepted == [] ==> after.accepted == [w])
            && (before.accepted != [] ==>
                  var last := before.accepted[|before.accepted| - 1];
                  var wins :=
                    || w.at - last.at >= last.stale
                    || Outranks(w.envelope.source, last.envelope.source)
                    || (!Outranks(last.envelope.source, w.envelope.source) && HeldRevision(last) <= HeldRevision(w));
                  if wins then after.accepted == before.accepted + [w] && after.value == Some(Entry(w.envelope, w.at + 86_400_000))
                  else after == before)
  {
    hide RankOf, NoHigher, HeldRevision, Outranks, AfterWrites;
    AcceptanceIsExact(writes, w);
    var before := AfterWrites(NO_KLINE, writes);
    if before.accepted != [] {
      RankMeaning(before.accepted[|before.accepted| - 1], w);
    }
    LastAcceptedIsStored(writes, w);
  }

  lemma {:induction false} LastAcceptedIsStored(writes: seq<Write>, w: Write)
    ensures AfterWrites(NO_KLINE, writes + [w]) == AfterWrite(AfterWrites(NO_KLINE, writes), w)
  {
    assert (writes + [w])[..|writes|] == writes;
  }

  /** The rank a reader of the stored envelope would compute. */
  function StoredRank(w: Write): Rank { Rank(KlineCachePriority(w.envelope.source), w.envelope.revision) }

  /** A write that comes without a revision takes the place of an equal source's larger one. */
  predicate Downgrades(w: Write, earlier: Write) {
    && KlineCachePriority(w.envelope.source) == KlineCachePriority(earlier.envelope.source)
    && w.envelope.revision <= 0 && earlier.envelope.revision > w.envelope.revision
  }

  /** In every run the stored envelopes of accepted writes that no stale time separates are in rank
      order exactly when the later one does not come without a revision after a larger one. */
  lemma {:induction false} StoredOrderIsExact(writes: seq<Write>, i: nat, j: nat)
    requires InOrder(writes)
    requires var a := AfterWrites(NO_KLINE, writes).accepted; i < j && Unlapsed(a, i, j)
    ensures var a := AfterWrites(NO_KLINE, writes).accepted;
            NoHigher(StoredRank(a[i]), StoredRank(a[j])) <==> !Downgrades(a[j], a[i])
  {
    hide KlineCachePriority, AfterWrites;
    AcceptedWritesAreOrdered(writes, i, j);
  }

  /** So when every write of the run carries a revision, the stored envelopes are in rank order. */
  lemma {:induction false} RevisedWritesStoreInOrder(writes: seq<Write>, i: nat, j: nat)
    requires InOrder(writes) && forall w :: w in writes ==> w.envelope.revision > 0
    requires var a := AfterWrites(NO_KLINE, writes).accepted; i < j && Unlapsed(a, i, j)
    ensures var a := AfterWrites(NO_KLINE, writes).accepted; NoHigher(StoredRank(a[i]), StoredRank(a[j]))
  {
    hide KlineCachePriority, AfterWrites;
    RunIsConsistent(writes);
    StoredOrderIsExact(writes, i, j);
  }

  /** What an accepted write without a revision shuts out, after any earlier run: of the next write
      of an equal source, the revisions below its clock, until the stale time has passed. */
  lemma {:induction false} ClockShutsOutExactly(writes: seq<Write>, first: Write, second: Write)
    requires InOrder(writes + [first, second]) && Due(AfterWrites(NO_KLINE, writes).accepted, first)
    requires KlineCachePriority(first.envelope.source) == KlineCachePriority(second.envelope.source)
    requires first.envelope.revision <= 0 < second.envelope.revision
    ensures var before, after := AfterWrites(NO_KLINE, writes + [first]), AfterWrites(NO_KLINE, writes + [first, second]);
            after == before <==> second.envelope.revision < first.clock && second.at - first.at < first.stale
  {
    hide KlineCachePriority, AfterWrites;
    var one, all := writes + [first], writes + [first, second];
    assert all == one + [second];
    forall i, j | 0 <= i < j < |one| ensures one[i].at <= one[j].at {
      assert all[i] == one[i] && all[j] == one[j];
    }
    AcceptanceIsExact(writes, first);
    AcceptanceIsExact(one, second);
  }

  /** The order is that of the meta key, not of the stored envelopes: a write that came without a
      revision holds its clock, and then shuts out every smaller explicit revision. */
  lemma {:induction false} ClockShadowsRevisions(first: Write, second: Write)
    requires first.at <= second.at < first.at + first.stale
    requires first.envelope.source == second.envelope.source
    requires first.envelope.revision <= 0 < second.envelope.revision < first.clock
    ensures var k := AfterWrites(NO_KLINE, [first, second]);
            k.value.Some? && k.value.value.value == first.envelope && k.value.value.value.revision < second.envelope.revision
  {
    hide KlineCachePriority;
    assert [first, second][..1] == [first];
    assert AfterWrites(NO_KLINE, [first]) == AfterWrite(NO_KLINE, first) by {
      assert [first][..0] == [];
    }
    assert AfterWrites(NO_KLINE, [first, second]) == AfterWrite(AfterWrites(NO_KLINE, [first]), second);
    PrioritiesArePositive(first);
  }

  lemma {:induction false} PrioritiesArePositive(w: Write)
    ensures RankOf(w).priority > NO_RANK.priority && !Refuses(NO_KLINE, w)
  {
  }

  // ----------------------------------------------------------------- realtime

  /** A quote, tick or depth write; `sourceTs` is 0 for a payload that carries no time. */
  datatype Tick = Tick(at: int, sourceTs: int, body: string)

  datatype Realtime = Realtime(value: Option<Entry<string>>, meta: Option<Entry<int>>, accepted: seq<Tick>)

  predicate Outdated(r: Realtime, t: Tick) {
    var held := Live(r.meta, t.at);
    t.sourceTs > 0 && held.Some? && held.value >= t.sourceTs
  }

  /** Timed writes go through the script; untimed ones overwrite the value and leave the meta key. */
  function AfterTick(r: Realtime, t: Tick, ttl: nat): Realtime {
    if Outdated(r, t) then r
    else Realtime(
           Some(Entry(t.body, t.at + ttl)),
           if t.sourceTs > 0 then Some(Entry(t.sourceTs, t.at + ttl)) else r.meta,
           r.accepted + [t])
  }

  function AfterTicks(r: Realtime, ticks: seq<Tick>, ttl: nat): Realtime {
    if ticks == [] then r else AfterTick(AfterTicks(r, ticks[..|ticks| - 1], ttl), ticks[|ticks| - 1], ttl)
  }

  const NO_REALTIME := Realtime(None, None, [])

  /** The last timed write of a history. */
  function LastTimed(ticks: seq<Tick>): Option<Tick> {
    if ticks == [] then None
    else if ticks[|ticks| - 1].sourceTs > 0 then Some(ticks[|ticks| - 1])
    else LastTimed(ticks[..|ticks| - 1])
  }

  predicate TicksInOrder(ticks: seq<Tick>) {
    forall i, j :: 0 <= i < j < |ticks| ==> ticks[i].at <= ticks[j].at
  }

  predicate Rising(a: Tick, b: Tick, ttl: nat) {
    a.sourceTs > 0 && b.sourceTs > 0 && b.at - a.at < ttl ==> a.sourceTs < b.sourceTs
  }

  ghost predicate TicksConsistent(r: Realtime, ttl: nat) {
    && (r.accepted == [] ==> r.value.None?)
    && (r.accepted != [] ==>
          var t := r.accepted[|r.accepted| - 1]; r.value == Some(Entry(t.body, t.at + ttl)))
    && r.meta == (var t := LastTimed(r.accepted); if t.None? then None else Some(Entry(t.value.sourceTs, t.value.at + ttl)))
    && TicksInOrder(r.accepted)
    && forall i, j :: 0 <= i < j < |r.accepted| ==> Rising(r.accepted[i], r.accepted[j], ttl)
  }

  lemma {:induction false} LastTimedIsLast(ticks: seq<Tick>, ttl: nat)
    ensures var t := LastTimed(ticks);
            && (t.Some? ==> t.value in ticks && t.value.sourceTs > 0)
            && (t.None? ==> forall i :: 0 <= i < |ticks| ==> ticks[i].sourceTs <= 0)
            && (t.Some? && TicksInOrder(ticks) ==> forall i :: 0 <= i < |ticks| && ticks[i].sourceTs > 0 ==> ticks[i].at <= t.value.at)
            && (t.Some? && (forall i, j :: 0 <= i < j < |ticks| ==> Rising(ticks[i], ticks[j], ttl)) ==>
                  forall i :: 0 <= i < |ticks| && ticks[i].sourceTs > 0 ==> ticks[i] == t.value || Rising(ticks[i], t.value, ttl))
  {
    if ticks != [] && ticks[|ticks| - 1].sourceTs <= 0 {
      LastTimedIsLast(ticks[..|ticks| - 1], ttl);
    }
  }

  lemma {:induction false} TickKeepsConsistent(r: Realtime, t: Tick, ttl: nat)
    requires TicksConsistent(r, ttl)
    requires forall i :: 0 <= i < |r.accepted| ==> r.accepted[i].at <= t.at
    ensures TicksConsistent(AfterTick(r, t, ttl), ttl)
  {
    if !Outdated(r, t) {
      LastTimedIsLast(r.accepted, ttl);
      var after := r.accepted + [t];
      assert after[..|r.accepted|] == r.accepted;
      forall i | 0 <= i < |r.accepted| ensures Rising(r.accepted[i], t, ttl) {
        if t.sourceTs > 0 && r.accepted[i].sourceTs > 0 && t.at - r.accepted[i].at < ttl {
          var last := LastTimed(r.accepted).value;
          assert last.sourceTs < t.sourceTs;
        }
      }
    }
  }

  lemma {:induction false} TicksRunIsConsistent(ticks: seq<Tick>, ttl: nat)
    requires TicksInOrder(ticks)
    ensures TicksConsistent(AfterTicks(NO_REALTIME, ticks, ttl), ttl)
    ensures forall i :: 0 <= i < |AfterTicks(NO_REALTIME, ticks, ttl).accepted| ==> AfterTicks(NO_REALTIME, ticks, ttl).accepted[i] in ticks
  {
    hide Outdated;
    if ticks != [] {
      var earlier, t := ticks[..|ticks| - 1], ticks[|ticks| - 1];
      TicksRunIsConsistent(earlier, ttl);
      var r := AfterTicks(NO_REALTIME, earlier, ttl);
      forall i | 0 <= i < |r.accepted| ensures r.accepted[i].at <= t.at && r.accepted[i] in ticks {
        var j :| 0 <= j < |earlier| && earlier[j] == r.accepted[i];
        assert ticks[j] == earlier[j];
      }
      TickKeepsConsistent(r, t, ttl);
    }
  }

  lemma {:induction false} OutdatedExactly(r: Realtime, t: Tick, ttl: nat)
    requires TicksConsistent(r, ttl) && forall i :: 0 <= i < |r.accepted| ==> r.accepted[i].at <= t.at
    ensures Outdated(r, t) <==> t.sourceTs > 0 && exists i :: 0 <= i < |r.accepted| && !Rising(r.accepted[i], t, ttl)
  {
    LastTimedIsLast(r.accepted, ttl);
    var last := LastTimed(r.accepted);
    if Outdated(r, t) {
      var i :| 0 <= i < |r.accepted| && r.accepted[i] == last.value;
      assert !Rising(r.accepted[i], t, ttl);
    } else {
      forall i | 0 <= i < |r.accepted| && t.sourceTs > 0 ensures Rising(r.accepted[i], t, ttl) {
        assert r.accepted[i].sourceTs > 0 ==> r.accepted[i] == last.value || Rising(r.accepted[i], last.value, ttl);
      }
    }
  }

  lemma {:induction false} LiveIsLast(r: Realtime, now: int, ttl: nat)
    requires TicksConsistent(r, ttl)
    ensures Live(r.value, now) == if r.accepted != [] && now - r.accepted[|r.accepted| - 1].at < ttl
                                  then Some(r.accepted[|r.accepted| - 1].body) else None
    ensures forall i, j :: 0 <= i < j < |r.accepted| ==> Rising(r.accepted[i], r.accepted[j], ttl)
  {
  }

  lemma {:induction false} TicksSnoc(ticks: seq<Tick>, t: Tick, ttl: nat)
    ensures AfterTicks(NO_REALTIME, ticks + [t], ttl) == AfterTick(AfterTicks(NO_REALTIME, ticks, ttl), t, ttl)
    ensures TicksInOrder(ticks + [t]) ==> TicksInOrder(ticks) && forall x :: x in ticks ==> x.at <= t.at
  {
    var all := ticks + [t];
    assert all[..|ticks|] == ticks && all[|ticks|] == t;
    assert forall i :: 0 <= i < |ticks| ==> all[i] == ticks[i];
  }

  /** In every run: the live value is the last accepted write; timed writes accepted within the
      lifetime of one another strictly rise; and the next write is dropped exactly when it is timed
      and an accepted timed write is both fresh and not older. */
  lemma {:induction false} RealtimeRuns(ticks: seq<Tick>, t: Tick, ttl: nat)
    requires TicksInOrder(ticks + [t])
    ensures var r := AfterTicks(NO_REALTIME, ticks, ttl);
            && Live(r.value, t.at) == (if r.accepted != [] && t.at - r.accepted[|r.accepted| - 1].at < ttl
                                       then Some(r.accepted[|r.accepted| - 1].body) else None)
            && (forall i, j :: 0 <= i < j < |r.accepted| ==> Rising(r.accepted[i], r.accepted[j], ttl))
            && (AfterTicks(NO_REALTIME, ticks + [t], ttl) == r <==>
                  t.sourceTs > 0 && exists i :: 0 <= i < |r.accepted| && !Rising(r.accepted[i], t, ttl))
  {
    hide AfterTicks, TicksConsistent, TicksInOrder, Outdated, Rising, Live;
    TicksSnoc(ticks, t, ttl);
    TicksRunIsConsistent(ticks, ttl);
    var r := AfterTicks(NO_REALTIME, ticks, ttl);
    LiveIsLast(r, t.at, ttl);
    OutdatedExactly(r, t, ttl);
    if !Outdated(r, t) {
      assert |AfterTick(r, t, ttl).accepted| == |r.accepted| + 1;
    }
  }

  // -------------------------------------------------------------------- the cache

  /** One kline key of the cache, updated in place as the script does. */
  class KlineKey {
    var value: Option<Entry<Envelope>>
    var meta: Option<Entry<Rank>>
    var staleTTL: nat
    ghost var accepted: seq<Write>

    ghost function State(): Kline
      reads this
    {
      Kline(value, meta, accepted)
    }

    constructor ()
      ensures State() == NO_KLINE && staleTTL == 30_000
    {
      value, meta, accepted, staleTTL := None, None, [], 30_000;
    }

    /** Writes from here on carry the new stale time; the keys already there keep theirs. */
    method SetKlineStaleTTL(ttl: int)
      modifies this`staleTTL
      ensures State() == old(State()) && staleTTL == if ttl > 0 then ttl else old(staleTTL)
    {
      if ttl > 0 {
        staleTTL := ttl;
      }
    }

    method RunVersionedScript(at: int, envelope: Envelope, priority: int, revision: int, ghost w: Write) returns (accept: bool)
      requires w.at == at && w.envelope == envelope && w.stale == staleTTL && RankOf(w) == Rank(priority, revision)
      modifies this`value, this`meta, this`accepted
      ensures State() == AfterWrite(old(State()), w)
      ensures accept <==> !Refuses(old(State()), w)
    {
      var oldPriority, oldRevision := 0, 0;
      if meta.Some? && at < meta.value.expiry {
        oldPriority, oldRevision := meta.value.value.priority, meta.value.value.revision;
      }
      if oldPriority > priority || (oldPriority == priority && oldRevision > revision) {
        return false;
      }
      value := Some(Entry(envelope, at + KLINE_TTL));
      meta := Some(Entry(Rank(priority, revision), at + staleTTL));
      accepted := accepted + [w];
      return true;
    }

    /** Set for a kline: the bytes are encoded first, the missing revision is filled in after. */
    method Set(at: int, clock: int, envelope: Envelope)
      modifies this`value, this`meta, this`accepted
      ensures State() == AfterWrite(old(State()), Write(at, clock, staleTTL, envelope))
    {
      hide KlineCachePriority;
      var stored := envelope;
      var priority, revision := KlineCachePriority(envelope.source), envelope.revision;
      if revision <= 0 {
        revision := clock;
      }
      var _ := RunVersionedScript(at, stored, priority, revision, Write(at, clock, staleTTL, envelope));
    }
  }

  datatype Topic = TopicQuote | TopicTick | TopicDepth

  /** marketDataTTL of the topics other than klines. */
  function Lifetime(topic: Topic): nat { if topic == TopicDepth then DEPTH_TTL else REALTIME_TTL }

  /** One quote, tick or depth key. */
  class RealtimeKey {
    const topic: Topic
    var value: Option<Entry<string>>
    var meta: Option<Entry<int>>
    ghost var accepted: seq<Tick>

    ghost function State(): Realtime
      reads this
    {
      Realtime(value, meta, accepted)
    }

    constructor (topic: Topic)
      ensures State() == NO_REALTIME && this.topic == topic
    {
      this.topic := topic;
      value, meta, accepted := None, None, [];
    }

    method RunVersionedScript(at: int, body: string, sourceTs: int) returns (accept: bool)
      modifies this
      ensures accept <==> sourceTs > 0 && !Outdated(old(State()), Tick(at, sourceTs, body))
      ensures State() == if accept then AfterTick(old(State()), Tick(at, sourceTs, body), Lifetime(topic)) else old(State())
    {
      var oldTs := if meta.Some? && at < meta.value.expiry then meta.value.value else 0;
      if sourceTs <= 0 || oldTs >= sourceTs {
        return false;
      }
      value, meta := Some(Entry(body, at + Lifetime(topic))), Some(Entry(sourceTs, at + Lifetime(topic)));
      accepted := accepted + [Tick(at, sourceTs, body)];
      return true;
    }

    method Set(at: int, body: string, sourceTs: int)
      modifies this
      ensures State() == AfterTick(old(State()), Tick(at, sourceTs, body), if topic == TopicDepth then 300_000 else 1_800_000)
    {
      if sourceTs > 0 {
        var accept := RunVersionedScript(at, body, sourceTs);
        if !accept {
          return;
        }
      } else {
        value := Some(Entry(body, at + Lifetime(topic)));
        accepted := accepted + [Tick(at, sourceTs, body)];
      }
    }
  }
}
