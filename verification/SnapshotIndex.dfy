/** The authoritative snapshot index kept in Redis: an atomic "latest" script, a separate
    add-and-prune pipeline on a sliding hot window, and revocation tombstones. */
module SnapshotIndex {
  import opened Text

  datatype Snapshot = Snapshot(
    id: string, kind: string, category: string, market: string, symbol: string,
    authority: string, source: int, revision: int, reception: int, confirmed: bool, body: string)

  /** What names one stream of snapshots, as publishers and callers write it. */
  datatype StreamName = StreamName(authority: string, kind: string, category: string, market: string, symbol: string)

  function NameOf(s: Snapshot): StreamName {
    StreamName(s.authority, s.kind, s.category, s.market, s.symbol)
  }

  function KeyParts(n: StreamName): (parts: seq<string>)
    ensures |parts| == 5
  {
    [ToLower(TrimSpace(n.authority)), ToUpper(TrimSpace(n.kind)),
     ToLower(TrimSpace(n.category)), ToUpper(TrimSpace(n.market)), ToUpper(TrimSpace(n.symbol))]
  }

  /** The Redis keys of a stream, after their fixed prefixes. */
  function StreamKey(n: StreamName): string { Join(KeyParts(n), ':') }

  predicate SameName(a: string, b: string) { SameFolded(TrimSpace(a), TrimSpace(b)) }

  /** The same names but for letter case and surrounding spaces. */
  predicate SameStream(a: StreamName, b: StreamName) {
    && SameName(a.authority, b.authority) && SameName(a.kind, b.kind) && SameName(a.category, b.category)
    && SameName(a.market, b.market) && SameName(a.symbol, b.symbol)
  }

  /** The snapshot belongs to the stream of this name. */
  predicate Names(n: StreamName, s: Snapshot) {
    && SameName(n.authority, s.authority) && SameName(n.kind, s.kind) && SameName(n.category, s.category)
    && SameName(n.market, s.market) && SameName(n.symbol, s.symbol)
  }

  predicate ColonFree(n: StreamName) {
    ':' !in n.authority + n.kind + n.category + n.market + n.symbol
  }

  lemma {:induction false} PartsAgree(a: StreamName, b: StreamName)
    ensures KeyParts(a) == KeyParts(b) <==> SameStream(a, b)
  {
    hide TrimSpace, ToLower, ToUpper, SameFolded;
    CaseMapsIdentify(TrimSpace(a.authority), TrimSpace(b.authority));
    CaseMapsIdentify(TrimSpace(a.kind), TrimSpace(b.kind));
    CaseMapsIdentify(TrimSpace(a.category), TrimSpace(b.category));
    CaseMapsIdentify(TrimSpace(a.market), TrimSpace(b.market));
    CaseMapsIdentify(TrimSpace(a.symbol), TrimSpace(b.symbol));
    var p, q := KeyParts(a), KeyParts(b);
    assert p == q <==> p[0] == q[0] && p[1] == q[1] && p[2] == q[2] && p[3] == q[3] && p[4] == q[4];
  }

  lemma {:induction false} FoldedHasNoColon(s: string)
    requires ':' !in s
    ensures ':' !in ToLower(TrimSpace(s)) && ':' !in ToUpper(TrimSpace(s))
  {
    hide TrimSpace;
    TrimSpaceCuts(s);
    var t := TrimSpace(s);
    assert forall i :: 0 <= i < |t| ==> t[i] in s;
  }

  lemma {:induction false} PartsHaveNoColon(n: StreamName)
    requires ColonFree(n)
    ensures forall part :: part in KeyParts(n) ==> ':' !in part
  {
    hide TrimSpace, ToLower, ToUpper;
    FoldedHasNoColon(n.authority);
    FoldedHasNoColon(n.kind);
    FoldedHasNoColon(n.category);
    FoldedHasNoColon(n.market);
    FoldedHasNoColon(n.symbol);
  }

  lemma {:induction false} ColonCount(parts: seq<string>)
    requires parts != []
    ensures |Split(Join(parts, ':'), ':')| >= |parts|
    ensures |Split(Join(parts, ':'), ':')| == |parts| <==> forall part :: part in parts ==> ':' !in part
  {
    hide Split;
    if |parts| == 1 {
      if ':' !in parts[0] {
        SplitPlain(parts[0], ':');
      } else {
        var k :| 0 <= k < |parts[0]| && parts[0][k] == ':';
        assert parts[0] == parts[0][..k] + [':'] + parts[0][k + 1..];
        SplitConcat(parts[0][..k], ':', parts[0][k + 1..]);
      }
    } else {
      ColonCount(parts[..1]);
      ColonCount(parts[1..]);
      SplitConcat(parts[0], ':', Join(parts[1..], ':'));
      assert Join(parts[..1], ':') == parts[0];
      assert parts == parts[..1] + parts[1..];
    }
  }

  /** Five texts can be told from the joined key exactly when none of them holds a colon. */
  lemma {:induction false} KeyIsReadableExactly(parts: seq<string>)
    requires |parts| == 5
    ensures (forall other :: |other| == 5 && Join(other, ':') == Join(parts, ':') ==> other == parts) <==>
            (forall part :: part in parts ==> ':' !in part)
  {
    hide Split, Join;
    ColonCount(parts);
    if forall part :: part in parts ==> ':' !in part {
      forall other | |other| == 5 && Join(other, ':') == Join(parts, ':') ensures other == parts {
        ColonCount(other);
        SplitJoin(parts, ':');
        SplitJoin(other, ':');
      }
    } else {
      var i, k :| 0 <= i < 5 && 0 <= k < |parts[i]| && parts[i][k] == ':';
      Regrouped(parts, i, k);
    }
  }

  /** A colon inside a text lets a neighbour take its other half. */
  lemma {:induction false} Regrouped(parts: seq<string>, i: nat, k: nat)
    requires |parts| == 5 && i < 5 && k < |parts[i]| && parts[i][k] == ':'
    ensures exists other :: |other| == 5 && other != parts && Join(other, ':') == Join(parts, ':')
  {
    hide Join;
    var x, y := parts[i][..k], parts[i][k + 1..];
    assert parts[i] == x + [':'] + y;
    JoinPair(x, y);
    if i < 4 {
      var head, tail := parts[..i], parts[i + 2..];
      var z := parts[i + 1];
      var other := head + [x, y + [':'] + z] + tail;
      JoinPair(parts[i], z);
      JoinPair(x, y + [':'] + z);
      assert (x + [':'] + y) + [':'] + z == x + [':'] + (y + [':'] + z);
      JoinInside(head, [parts[i], z], [x, y + [':'] + z], tail);
      assert parts == head + [parts[i], z] + tail;
      assert other[i] == x && |x| < |parts[i]|;
    } else {
      var head, w := parts[..3], parts[3];
      var other := head + [w + [':'] + x, y] + [];
      JoinPair(w, parts[4]);
      JoinPair(w + [':'] + x, y);
      assert w + [':'] + (x + [':'] + y) == (w + [':'] + x) + [':'] + y;
      JoinInside(head, [w, parts[4]], [w + [':'] + x, y], []);
      assert parts == head + [w, parts[4]] + [];
      assert other[4] == y && |y| < |parts[4]|;
    }
  }

  lemma {:induction false} JoinPair(a: string, b: string)
    ensures Join([a, b], ':') == a + [':'] + b
  {
  }

  lemma {:induction false} JoinInside(head: seq<string>, a: seq<string>, b: seq<string>, tail: seq<string>)
    requires a != [] && b != [] && Join(a, ':') == Join(b, ':')
    ensures Join(head + a + tail, ':') == Join(head + b + tail, ':')
  {
    hide Join;
    assert head + a + tail == head + (a + tail) && head + b + tail == head + (b + tail);
    if tail == [] {
      assert a + tail == a && b + tail == b;
    } else {
      JoinConcat(a, tail, ':');
      JoinConcat(b, tail, ':');
    }
    if head == [] {
      assert head + (a + tail) == a + tail && head + (b + tail) == b + tail;
    } else {
      JoinConcat(head, a + tail, ':');
      JoinConcat(head, b + tail, ':');
    }
  }

  /** Streams share their keys exactly when all five names agree, up to letter case and surrounding
      spaces, unless both hold colons. */
  lemma {:induction false} StreamsHaveTheirOwnKeys(a: StreamName, b: StreamName)
    ensures SameStream(a, b) ==> StreamKey(a) == StreamKey(b)
    ensures ColonFree(a) || ColonFree(b) ==> (StreamKey(a) == StreamKey(b) <==> SameStream(a, b))
  {
    hide KeyParts, Join, SameStream;
    PartsAgree(a, b);
    if ColonFree(a) {
      PartsHaveNoColon(a);
      KeyIsReadableExactly(KeyParts(a));
    }
    if ColonFree(b) {
      PartsHaveNoColon(b);
      KeyIsReadableExactly(KeyParts(b));
    }
  }

  /** With colons in both, two different streams can share their keys. */
  lemma {:induction false} ColonsCollide(x: string, y: string, z: string, category: string, market: string, symbol: string)
    requires x != "" && y != "" && z != "" && AllDigits(x + y + z)
    ensures var a, b := StreamName(x + ":" + y, z, category, market, symbol), StreamName(x, y + ":" + z, category, market, symbol);
            StreamKey(a) == StreamKey(b) && !SameStream(a, b)
  {
    hide TrimSpace, ToLower, ToUpper, Join;
    assert forall i :: 0 <= i < |x| ==> x[i] == (x + y + z)[i];
    assert forall i :: 0 <= i < |y| ==> y[i] == (x + y + z)[|x| + i];
    assert forall i :: 0 <= i < |z| ==> z[i] == (x + y + z)[|x| + |y| + i];
    var a, b := StreamName(x + ":" + y, z, category, market, symbol), StreamName(x, y + ":" + z, category, market, symbol);
    forall s | s in {x, z, x + ":" + y, y + ":" + z} ensures TrimSpace(s) == s && ToLower(s) == s && ToUpper(s) == s {
      FigureIsNormal(s);
    }
    var rest := KeyParts(a)[2..];
    JoinPair(x + ":" + y, z);
    JoinPair(x, y + ":" + z);
    assert x + ":" + y + [':'] + z == x + [':'] + (y + ":" + z);
    JoinInside([], [x + ":" + y, z], [x, y + ":" + z], rest);
    assert KeyParts(a) == [] + [x + ":" + y, z] + rest && KeyParts(b) == [] + [x, y + ":" + z] + rest;
  }

  lemma {:induction false} FigureIsNormal(s: string)
    requires s != "" && forall i :: 0 <= i < |s| ==> IsDigit(s[i]) || s[i] == ':'
    ensures TrimSpace(s) == s && ToLower(s) == s && ToUpper(s) == s
  {
  }

  predicate Publishable(s: Snapshot) {
    s.id != "" && s.confirmed && s.authority != "" && s.source > 0
  }

  /** Lexicographic order by source time, revision and reception time. */
  predicate RankLess(a: Snapshot, b: Snapshot) {
    || a.source < b.source
    || (a.source == b.source && a.revision < b.revision)
    || (a.source == b.source && a.revision == b.revision && a.reception < b.reception)
  }

  predicate SameRank(a: Snapshot, b: Snapshot) {
    a.source == b.source && a.revision == b.revision && a.reception == b.reception
  }

  ghost predicate Greatest(s: Snapshot, all: set<Snapshot>) {
    s in all && forall x :: x in all ==> !RankLess(s, x)
  }

  // ------------------------------------------------ the two steps of a publish

  /** The two Redis keys of one stream. A hot member's score is its source time. */
  datatype Stream = Stream(latest: Option<Snapshot>, hot: set<Snapshot>)

  const EMPTY := Stream(None, {})

  function AfterScript(st: Stream, s: Snapshot): Stream {
    if st.latest.Some? && !RankLess(st.latest.value, s) then st else st.(latest := Some(s))
  }

  /** What the script returns: the source time of the value it leaves in place. */
  function ScriptReply(st: Stream, s: Snapshot): int {
    AfterScript(st, s).latest.value.source
  }

  function AfterPipeline(st: Stream, s: Snapshot, cutoff: int): Stream {
    var added := if s.source >= cutoff then st.hot + {s} else st.hot;
    st.(hot := set x | x in added && x.source >= cutoff)
  }

  function AfterPublish(st: Stream, s: Snapshot, window: nat): Stream {
    AfterPipeline(AfterScript(st, s), s, ScriptReply(st, s) - window)
  }

  // --------------------------------------------------------- concurrent publishers

  /** One publisher runs the script, and later, if it does not crash, its pipeline. */
  datatype Event = Script(publisher: nat, snapshot: Snapshot) | Pipeline(publisher: nat)

  datatype Cluster = Cluster(
    stream: Stream,
    pending: map<nat, (Snapshot, int)>,  // publishers between their two steps, with their cutoff
    scripted: set<Snapshot>,             // every snapshot the script has seen
    published: set<Snapshot>)            // every snapshot whose pipeline has run

  const START := Cluster(EMPTY, map[], {}, {})

  function Step(c: Cluster, e: Event, window: nat): Cluster {
    match e
    case Script(p, s) =>
      if p in c.pending || !Publishable(s) then c
      else Cluster(AfterScript(c.stream, s),
                   c.pending[p := (s, ScriptReply(c.stream, s) - window)],
                   c.scripted + {s}, c.published)
    case Pipeline(p) =>
      if p !in c.pending then c
      else Cluster(AfterPipeline(c.stream, c.pending[p].0, c.pending[p].1),
                   c.pending - {p}, c.scripted, c.published + {c.pending[p].0})
  }

  function Run(events: seq<Event>, window: nat): Cluster {
    if events == [] then START
    else Step(Run(events[..|events| - 1], window), events[|events| - 1], window)
  }

  ghost predicate IndexInvariant(c: Cluster, window: nat) {
    && (c.stream.latest.None? <==> c.scripted == {})
    && c.published <= c.scripted
    && c.stream.hot <= c.published
    && (c.stream.latest.None? ==> c.pending == map[])
    && (c.stream.latest.Some? ==>
          var cutoff := c.stream.latest.value.source - window;
          && Greatest(c.stream.latest.value, c.scripted)
          && (forall p :: p in c.pending ==> c.pending[p].0 in c.scripted && c.pending[p].1 <= cutoff)
          && (forall s :: s in c.published && s.source >= cutoff ==> s in c.stream.hot))
  }

  lemma {:induction false} StepKeepsInvariant(c: Cluster, e: Event, window: nat)
    requires IndexInvariant(c, window)
    ensures IndexInvariant(Step(c, e, window), window)
  {
  }

  lemma {:induction false} RunInvariant(events: seq<Event>, window: nat)
    ensures IndexInvariant(Run(events, window), window)
  {
    if events != [] {
      RunInvariant(events[..|events| - 1], window);
      StepKeepsInvariant(Run(events[..|events| - 1], window), events[|events| - 1], window);
    }
  }

  /** For every interleaving of any number of publishers, crashed ones included: "latest" is the
      greatest snapshot scripted so far, and every fully published snapshot still inside the hot
      window is in the hot set. */
  lemma {:induction false} LatestAndHotWindow(events: seq<Event>, window: nat)
    ensures
      var c := Run(events, window);
      && (c.scripted == {} <==> c.stream.latest.None?)
      && (c.scripted != {} ==>
            && Greatest(c.stream.latest.value, c.scripted)
            && forall s :: s in c.published && s.source >= c.stream.latest.value.source - window
                 ==> s in c.stream.hot)
      && c.stream.hot <= c.published <= c.scripted
  {
    RunInvariant(events, window);
  }

  lemma {:induction false} StrangerIsNotPending(events: seq<Event>, p: nat, window: nat)
    requires forall k :: 0 <= k < |events| ==> events[k].publisher != p
    ensures p !in Run(events, window).pending
  {
    hide Publishable, AfterScript, AfterPipeline, ScriptReply;
    if events != [] {
      StrangerIsNotPending(events[..|events| - 1], p, window);
    }
  }

  lemma {:induction false} StepKeepsHistory(c: Cluster, e: Event, window: nat)
    ensures c.scripted <= Step(c, e, window).scripted && c.published <= Step(c, e, window).published
    ensures forall s :: s in Step(c, e, window).scripted && s !in c.scripted ==> Publishable(s) && e.Script? && e.snapshot == s
    ensures forall p :: p in c.pending && e.publisher != p ==>
              p in Step(c, e, window).pending && Step(c, e, window).pending[p] == c.pending[p]
  {
  }

  lemma {:induction false} ScriptStep(c: Cluster, p: nat, s: Snapshot, window: nat)
    requires p !in c.pending && Publishable(s)
    ensures var d := Step(c, Script(p, s), window); s in d.scripted && p in d.pending && d.pending[p].0 == s
  {
  }

  lemma {:induction false} PipelineStep(c: Cluster, p: nat, window: nat)
    requires p in c.pending
    ensures c.pending[p].0 in Step(c, Pipeline(p), window).published
  {
  }

  /** Every script of a new publisher counts from then on, and so does its publication once its
      pipeline has run; nothing else is counted. */
  lemma {:induction false} EveryPublicationCounts(events: seq<Event>, window: nat, i: nat, j: nat)
    requires i < j < |events| && events[i].Script? && Publishable(events[i].snapshot)
    requires forall k :: 0 <= k < j && k != i ==> events[k].publisher != events[i].publisher
    ensures var c := Run(events, window);
            && events[i].snapshot in c.scripted
            && (events[j] == Pipeline(events[i].publisher) ==> events[i].snapshot in c.published)
            && forall s :: s in c.scripted ==> Publishable(s) && exists k :: 0 <= k < |events| && events[k].Script? && events[k].snapshot == s
    decreases |events|
  {
    hide Publishable, Step;
    var n, p, s := |events| - 1, events[i].publisher, events[i].snapshot;
    OnlyScriptsCount(events, window);
    StepKeepsHistory(Run(events[..n], window), events[n], window);
    if j < n {
      EveryPublicationCounts(events[..n], window, i, j);
    } else {
      StillPending(events[..n], p, s, i, window);
      if events[j] == Pipeline(p) {
        PipelineStep(Run(events[..n], window), p, window);
      }
    }
  }

  lemma {:induction false} StillPending(events: seq<Event>, p: nat, s: Snapshot, i: nat, window: nat)
    requires i < |events| && events[i] == Script(p, s) && Publishable(s)
    requires forall k :: 0 <= k < |events| && k != i ==> events[k].publisher != p
    ensures var c := Run(events, window); s in c.scripted && p in c.pending && c.pending[p].0 == s
    decreases |events|
  {
    hide Publishable, Step;
    var n := |events| - 1;
    StepKeepsHistory(Run(events[..n], window), events[n], window);
    if i < n {
      StillPending(events[..n], p, s, i, window);
    } else {
      StrangerIsNotPending(events[..n], p, window);
      ScriptStep(Run(events[..n], window), p, s, window);
    }
  }

  lemma {:induction false} OnlyScriptsCount(events: seq<Event>, window: nat)
    ensures forall s :: s in Run(events, window).scripted ==>
              Publishable(s) && exists k :: 0 <= k < |events| && events[k].Script? && events[k].snapshot == s
  {
    hide Publishable, Step;
    if events != [] {
      var n := |events| - 1;
      OnlyScriptsCount(events[..n], window);
      StepKeepsHistory(Run(events[..n], window), events[n], window);
      forall s | s in Run(events, window).scripted
        ensures Publishable(s) && exists k :: 0 <= k < |events| && events[k].Script? && events[k].snapshot == s
      {
        if s in Run(events[..n], window).scripted {
          var k :| 0 <= k < n && events[..n][k].Script? && events[..n][k].snapshot == s;
          assert events[k] == events[..n][k];
        } else {
          assert events[n].Script? && events[n].snapshot == s;
        }
      }
    }
  }

  /** The pipeline that runs at step `k`, if any: the snapshot it adds and the bound it prunes below. */
  function PipelineAt(events: seq<Event>, k: nat, window: nat): Option<(Snapshot, int)>
    requires k < |events|
  {
    var pending := Run(events[..k], window).pending;
    if events[k].Pipeline? && events[k].publisher in pending then Some(pending[events[k].publisher]) else None
  }

  /** Some pipeline from step `k` on prunes `s`. */
  ghost predicate PrunedFrom(events: seq<Event>, s: Snapshot, k: nat, window: nat) {
    exists i :: k <= i < |events| && PipelineAt(events, i, window).Some? && s.source < PipelineAt(events, i, window).value.1
  }

  /** `s` was published, and neither its own pipeline nor a later one pruned it. */
  ghost predicate Survives(events: seq<Event>, s: Snapshot, window: nat) {
    exists k :: 0 <= k < |events| && PipelineAt(events, k, window).Some? && PipelineAt(events, k, window).value.0 == s
                && !PrunedFrom(events, s, k, window)
  }

  lemma {:induction false} PipelinesInPrefix(events: seq<Event>, n: nat, window: nat)
    requires n <= |events|
    ensures forall k :: 0 <= k < n ==> PipelineAt(events[..n], k, window) == PipelineAt(events, k, window)
  {
    forall k | 0 <= k < n ensures PipelineAt(events[..n], k, window) == PipelineAt(events, k, window) {
      assert events[..n][..k] == events[..k];
    }
  }

  lemma {:induction false} LastStepOnHot(events: seq<Event>, window: nat)
    requires events != []
    ensures var n := |events| - 1;
            var before, last := Run(events[..n], window).stream, PipelineAt(events, n, window);
            Run(events, window).stream.hot ==
            if last.Some? then AfterPipeline(before, last.value.0, last.value.1).hot else before.hot
  {
  }

  lemma {:induction false} PrunedByLast(events: seq<Event>, s: Snapshot, k: nat, window: nat)
    requires k < |events|
    ensures var n := |events| - 1;
            PrunedFrom(events, s, k, window) <==>
            PrunedFrom(events[..n], s, k, window)
            || (PipelineAt(events, n, window).Some? && s.source < PipelineAt(events, n, window).value.1)
  {
    hide PipelineAt;
    PipelinesInPrefix(events, |events| - 1, window);
  }

  /** The hot set of every run, publishers overlapping or not, is exactly what survives. */
  lemma {:induction false} HotSetIsExact(events: seq<Event>, s: Snapshot, window: nat)
    ensures s in Run(events, window).stream.hot <==> Survives(events, s, window)
  {
    hide PipelineAt, PrunedFrom;
    if events != [] {
      hide Run;
      var n := |events| - 1;
      HotSetIsExact(events[..n], s, window);
      PipelinesInPrefix(events, n, window);
      LastStepOnHot(events, window);
      forall k | 0 <= k <= n
        ensures PrunedFrom(events, s, k, window) <==>
                PrunedFrom(events[..n], s, k, window)
                || (PipelineAt(events, n, window).Some? && s.source < PipelineAt(events, n, window).value.1)
      {
        PrunedByLast(events, s, k, window);
      }
      NothingAfter(events[..n], s, window);
      if s in Run(events, window).stream.hot && !Survives(events[..n], s, window) {
        assert !PrunedFrom(events, s, n, window);
      }
    }
  }

  lemma {:induction false} NothingAfter(events: seq<Event>, s: Snapshot, window: nat)
    ensures !PrunedFrom(events, s, |events|, window)
  {
  }

  /** A step leaves a publisher pending, or makes it so with the window below the latest snapshot. */
  lemma {:induction false} PendingStep(c: Cluster, e: Event, p: nat, window: nat)
    requires p in Step(c, e, window).pending
    ensures var d := Step(c, e, window);
            if p in c.pending then d.pending[p] == c.pending[p] && e != Pipeline(p)
            else e == Script(p, d.pending[p].0) && d.stream.latest.Some? && d.pending[p].1 == d.stream.latest.value.source - window
  {
  }

  /** The snapshot and the bound of a pending publisher are those of its script at step `j`. */
  ghost predicate ScriptedAt(events: seq<Event>, p: nat, held: (Snapshot, int), j: nat, window: nat) {
    && j < |events| && events[j] == Script(p, held.0)
    && Run(events[..j + 1], window).stream.latest.Some?
    && held.1 == Run(events[..j + 1], window).stream.latest.value.source - window
    && forall i :: j < i < |events| ==> events[i] != Pipeline(p)
  }

  /** The bound a publisher prunes below is the window below what was the latest snapshot right
      after its own script, however late its pipeline runs. */
  lemma {:induction false} BoundIsOfItsScript(events: seq<Event>, p: nat, window: nat)
    requires p in Run(events, window).pending
    ensures exists j :: ScriptedAt(events, p, Run(events, window).pending[p], j, window)
  {
    var n := |events| - 1;
    assert events[..n + 1] == events;
    var before, held := Run(events[..n], window), Run(events, window).pending[p];
    PendingStep(before, events[n], p, window);
    if p in before.pending {
      BoundIsOfItsScript(events[..n], p, window);
      var j :| ScriptedAt(events[..n], p, held, j, window);
      ScriptedLater(events, p, held, j, window);
    } else {
      assert ScriptedAt(events, p, held, n, window);
    }
  }

  lemma {:induction false} ScriptedLater(events: seq<Event>, p: nat, held: (Snapshot, int), j: nat, window: nat)
    requires events != [] && ScriptedAt(events[..|events| - 1], p, held, j, window) && events[|events| - 1] != Pipeline(p)
    ensures ScriptedAt(events, p, held, j, window)
  {
    hide Run;
    var n := |events| - 1;
    assert events[..n][..j + 1] == events[..j + 1];
    assert forall i :: j <= i < n ==> events[..n][i] == events[i];
  }

  // --------------------------------------------------------- publishes that do not overlap

  function PublishAll(snapshots: seq<Snapshot>, window: nat): Stream {
    if snapshots == [] then EMPTY
    else AfterPublish(PublishAll(snapshots[..|snapshots| - 1], window), snapshots[|snapshots| - 1], window)
  }

  ghost function Elements(snapshots: seq<Snapshot>): set<Snapshot> {
    set s | s in snapshots
  }

  ghost function Window(all: set<Snapshot>, latest: Snapshot, window: nat): set<Snapshot> {
    set s | s in all && s.source >= latest.source - window
  }

  /** `latest` is the earliest published among the snapshots of greatest rank. */
  ghost predicate FirstGreatest(snapshots: seq<Snapshot>, latest: Snapshot) {
    exists i :: 0 <= i < |snapshots| && snapshots[i] == latest
      && (forall j :: 0 <= j < i ==> RankLess(snapshots[j], latest))
      && (forall j :: i <= j < |snapshots| ==> !RankLess(latest, snapshots[j]))
  }

  lemma {:induction false} ExtendFirstGreatest(front: seq<Snapshot>, latest: Snapshot, s: Snapshot)
    requires FirstGreatest(front, latest)
    ensures FirstGreatest(front + [s], if RankLess(latest, s) then s else latest)
  {
    var all := front + [s];
    var i :| 0 <= i < |front| && front[i] == latest
      && (forall j :: 0 <= j < i ==> RankLess(front[j], latest))
      && (forall j :: i <= j < |front| ==> !RankLess(latest, front[j]));
    if RankLess(latest, s) {
      forall j | 0 <= j < |front| ensures RankLess(all[j], s) {
        assert all[j] == front[j];
        assert RankLess(front[j], latest) || !RankLess(latest, front[j]);
      }
      assert all[|front|] == s;
    } else {
      assert forall j :: 0 <= j < |front| ==> all[j] == front[j];
      assert all[i] == latest;
    }
  }

  lemma {:induction false} SequentialLatest(snapshots: seq<Snapshot>, window: nat)
    ensures PublishAll(snapshots, window).latest.None? <==> snapshots == []
    ensures snapshots != [] ==> FirstGreatest(snapshots, PublishAll(snapshots, window).latest.value)
  {
    hide FirstGreatest, RankLess, AfterPublish;
    if snapshots != [] {
      var front, s := snapshots[..|snapshots| - 1], snapshots[|snapshots| - 1];
      assert snapshots == front + [s];
      SequentialLatest(front, window);
      PublishSetsLatest(PublishAll(front, window), s, window);
      if front == [] {
        assert snapshots == [s];
        SingleIsGreatest(s);
      } else {
        ExtendFirstGreatest(front, PublishAll(front, window).latest.value, s);
      }
    }
  }

  lemma {:induction false} PublishSetsLatest(st: Stream, s: Snapshot, window: nat)
    ensures AfterPublish(st, s, window).latest == AfterScript(st, s).latest
  {
  }

  lemma {:induction false} SingleIsGreatest(s: Snapshot)
    ensures FirstGreatest([s], s)
  {
    assert [s][0] == s;
  }

  /** Without overlap the hot set is exactly the published snapshots inside the hot window. */
  lemma {:induction false} SequentialPublishes(snapshots: seq<Snapshot>, window: nat)
    requires snapshots != []
    ensures
      var st := PublishAll(snapshots, window);
      && st.latest.Some?
      && FirstGreatest(snapshots, st.latest.value)
      && st.hot == Window(Elements(snapshots), st.latest.value, window)
  {
    SequentialLatest(snapshots, window);
    var front, s := snapshots[..|snapshots| - 1], snapshots[|snapshots| - 1];
    var before, after := PublishAll(front, window), PublishAll(snapshots, window);
    assert snapshots == front + [s];
    if front == [] {
      assert Elements(snapshots) == {s};
    } else {
      SequentialPublishes(front, window);
      assert Elements(snapshots) == Elements(front) + {s};
    }
  }

  /** The final state depends on the set of published snapshots alone when the order cannot decide
      between two different snapshots of the greatest rank. */
  lemma {:induction false} OrderIndependence(a: seq<Snapshot>, b: seq<Snapshot>, window: nat)
    requires Elements(a) == Elements(b)
    requires forall s, t :: Greatest(s, Elements(a)) && Greatest(t, Elements(a)) ==> s == t
    ensures PublishAll(a, window) == PublishAll(b, window)
  {
    if a == [] {
      assert forall i :: 0 <= i < |b| ==> b[i] in Elements(b);
    } else {
      assert a[0] in Elements(b);
      SequentialPublishes(a, window);
      SequentialPublishes(b, window);
      FirstGreatestIsGreatest(a, PublishAll(a, window).latest.value);
      FirstGreatestIsGreatest(b, PublishAll(b, window).latest.value);
    }
  }

  lemma {:induction false} FirstGreatestIsGreatest(snapshots: seq<Snapshot>, latest: Snapshot)
    requires FirstGreatest(snapshots, latest)
    ensures Greatest(latest, Elements(snapshots))
  {
    forall x | x in Elements(snapshots) ensures !RankLess(latest, x) {
      var k :| 0 <= k < |snapshots| && snapshots[k] == x;
    }
  }

  /** With two different snapshots of the greatest rank the order does decide. */
  lemma {:induction false} TiesKeepTheFirst(s: Snapshot, t: Snapshot, rest: seq<Snapshot>, window: nat)
    requires s != t && SameRank(s, t)
    requires forall x :: x in rest ==> !RankLess(s, x)
    ensures PublishAll([s, t] + rest, window).latest == Some(s)
    ensures PublishAll([t, s] + rest, window).latest == Some(t)
  {
    TieWinner(s, t, rest, window);
    TieWinner(t, s, rest, window);
  }

  lemma {:induction false} TieWinner(s: Snapshot, t: Snapshot, rest: seq<Snapshot>, window: nat)
    requires SameRank(s, t)
    requires forall x :: x in rest ==> !RankLess(s, x)
    ensures PublishAll([s, t] + rest, window).latest == Some(s)
  {
    var all := [s, t] + rest;
    SequentialPublishes(all, window);
    var latest := PublishAll(all, window).latest.value;
    assert all[0] == s && all[1] == t && forall j :: 2 <= j < |all| ==> all[j] in rest;
    assert forall j :: 0 <= j < |all| ==> !RankLess(all[0], all[j]);
  }

  /** Every order and repetition of the same publications ends in the same state exactly when the
      greatest rank is held by one snapshot alone. */
  lemma {:induction false} OrderMattersExactly(a: seq<Snapshot>, window: nat)
    ensures (forall b :: Elements(b) == Elements(a) ==> PublishAll(b, window) == PublishAll(a, window)) <==>
            (forall s, t :: Greatest(s, Elements(a)) && Greatest(t, Elements(a)) ==> s == t)
  {
    hide PublishAll;
    if forall s, t :: Greatest(s, Elements(a)) && Greatest(t, Elements(a)) ==> s == t {
      forall b | Elements(b) == Elements(a) ensures PublishAll(b, window) == PublishAll(a, window) {
        OrderIndependence(a, b, window);
      }
    } else {
      var s, t :| Greatest(s, Elements(a)) && Greatest(t, Elements(a)) && s != t;
      assert forall x :: x in a ==> x in Elements(a);
      TiesKeepTheFirst(s, t, a, window);
      RepeatsAddNothing(s, t, a);
      RepeatsAddNothing(t, s, a);
      assert PublishAll([s, t] + a, window) != PublishAll([t, s] + a, window);
    }
  }

  lemma {:induction false} RepeatsAddNothing(s: Snapshot, t: Snapshot, a: seq<Snapshot>)
    requires s in Elements(a) && t in Elements(a)
    ensures Elements([s, t] + a) == Elements(a)
  {
    var all := [s, t] + a;
    assert all[0] == s && all[1] == t && forall i :: 2 <= i < |all| ==> all[i] == a[i - 2];
    assert forall i :: 0 <= i < |a| ==> a[i] == all[i + 2];
  }

  // ------------------------------------------------------------- the search

  const PAGE := 100

  datatype Query = Query(authority: string, kind: string, target: int, lowest: int)

  /** A reply Redis may give to ZREVRANGEBYSCORE with a limit of `PAGE`: members in the range by
      descending score, ties in some order, and all of them unless the page is full. */
  ghost predicate IsPage(page: seq<Snapshot>, hot: set<Snapshot>, lowest: int, target: int) {
    && |page| <= 100
    && (forall i, j :: 0 <= i < j < |page| ==> page[i] != page[j] && page[i].source >= page[j].source)
    && (forall s :: s in page ==> s in hot && lowest <= s.source <= target)
    && (forall s :: s in hot && lowest <= s.source <= target && s !in page
          ==> |page| == 100 && s.source <= page[99].source)
  }

  /** The filter of the search loop; `hidden` holds the ids with a tombstone. */
  predicate Passes(s: Snapshot, q: Query, hidden: set<string>) {
    && s.confirmed && EqualFold(s.authority, q.authority) && EqualFold(s.kind, q.kind)
    && s.source <= q.target && TrimSpace(s.id) !in hidden
  }

  function Filter(q: Query, hidden: set<string>): Snapshot -> bool {
    s => Passes(s, q, hidden)
  }

  function Better(selected: Option<Snapshot>, s: Snapshot): Option<Snapshot> {
    if selected.None? || RankLess(selected.value, s) then Some(s) else selected
  }

  function Select(page: seq<Snapshot>, keep: Snapshot -> bool): Option<Snapshot> {
    if page == [] then None
    else
      var before := Select(page[..|page| - 1], keep);
      if keep(page[|page| - 1]) then Better(before, page[|page| - 1]) else before
  }

  /** What the search is asked for: the candidates of a whole publication history. */
  ghost function Wanted(history: set<Snapshot>, lowest: int, target: int, keep: Snapshot -> bool): set<Snapshot> {
    set s | s in history && lowest <= s.source <= target && keep(s)
  }

  lemma {:induction false} SelectIsGreatest(page: seq<Snapshot>, keep: Snapshot -> bool)
    ensures
      var r := Select(page, keep);
      && (r.None? ==> forall s :: s in page ==> !keep(s))
      && (r.Some? ==> r.value in page && keep(r.value)
                      && forall s :: s in page && keep(s) ==> !RankLess(r.value, s))
  {
    if page != [] {
      var front := page[..|page| - 1];
      SelectIsGreatest(front, keep);
      assert page == front + [page[|page| - 1]];
    }
  }

  /** True when a caller who sees only the page can rely on the answer. */
  predicate PageDecides(page: seq<Snapshot>, keep: Snapshot -> bool) {
    var r := Select(page, keep);
    |page| < PAGE || (r.Some? && r.value.source > page[|page| - 1].source)
  }

  /** The answer is a greatest wanted snapshot, and there is none exactly when nothing is wanted. */
  ghost predicate Answers(r: Option<Snapshot>, wanted: set<Snapshot>) {
    && (r.None? <==> wanted == {})
    && (r.Some? ==> Greatest(r.value, wanted))
  }

  lemma {:induction false} PageAnswer(page: seq<Snapshot>, hot: set<Snapshot>, lowest: int, target: int, keep: Snapshot -> bool)
    requires IsPage(page, hot, lowest, target) && PageDecides(page, keep)
    ensures Answers(Select(page, keep), Wanted(hot, lowest, target, keep))
  {
    SelectIsGreatest(page, keep);
    var r, wanted := Select(page, keep), Wanted(hot, lowest, target, keep);
    if r.None? {
      assert forall s :: s in wanted ==> s in page;
    } else {
      assert r.value in wanted;
    }
  }

  /** The search agrees with a brute-force maximum over the complete unrevoked history of every
      interleaved run, as long as the lookback range lies inside the hot window. */
  lemma {:induction false} SearchAgreesWithHistory(
      events: seq<Event>, window: nat, page: seq<Snapshot>, q: Query, hidden: set<string>)
    requires IsPage(page, Run(events, window).stream.hot, q.lowest, q.target)
    requires Run(events, window).stream.latest.Some? ==>
               q.lowest >= Run(events, window).stream.latest.value.source - window
    requires PageDecides(page, Filter(q, hidden))
    ensures Answers(Select(page, Filter(q, hidden)),
                    Wanted(Run(events, window).published, q.lowest, q.target, Filter(q, hidden)))
  {
    RunInvariant(events, window);
    var c, keep := Run(events, window), Filter(q, hidden);
    PageAnswer(page, c.stream.hot, q.lowest, q.target, keep);
    assert Wanted(c.published, q.lowest, q.target, keep) == Wanted(c.stream.hot, q.lowest, q.target, keep);
  }

  /** A snapshot that beats `r` on the score at which a full page ends. */
  function Rival(page: seq<Snapshot>, q: Query, id: string, r: Option<Snapshot>): Snapshot
    requires |page| > 0
  {
    Snapshot(id, q.kind, "", "", "", q.authority, page[|page| - 1].source,
             if r.Some? then r.value.revision + 1 else 1, 1, true, "")
  }

  /** The guard is exact: when it fails, some hot set that yields the very same page holds a
      wanted snapshot that beats the answer. */
  lemma {:induction false} PageGuardIsExact(
      page: seq<Snapshot>, hot: set<Snapshot>, q: Query, hidden: set<string>, id: string)
    requires IsPage(page, hot, q.lowest, q.target)
    requires TrimSpace(id) !in hidden && forall s :: s in page ==> s.id != id
    ensures PageDecides(page, Filter(q, hidden)) <==>
            forall other: set<Snapshot> :: IsPage(page, other, q.lowest, q.target) ==>
              Answers(Select(page, Filter(q, hidden)), Wanted(other, q.lowest, q.target, Filter(q, hidden)))
  {
    var keep := Filter(q, hidden);
    var r := Select(page, keep);
    if PageDecides(page, keep) {
      forall other: set<Snapshot> | IsPage(page, other, q.lowest, q.target)
        ensures Answers(r, Wanted(other, q.lowest, q.target, keep))
      {
        PageAnswer(page, other, q.lowest, q.target, keep);
      }
    } else {
      var rival := Rival(page, q, id, r);
      assert page[|page| - 1] in page;
      assert Passes(rival, q, hidden);
      RivalOvertakes(page, hot, q.lowest, q.target, keep, rival);
    }
  }

  lemma {:induction false} RivalOvertakes(
      page: seq<Snapshot>, hot: set<Snapshot>, lowest: int, target: int, keep: Snapshot -> bool, rival: Snapshot)
    requires IsPage(page, hot, lowest, target) && !PageDecides(page, keep)
    requires rival !in page && keep(rival) && rival.source == page[|page| - 1].source
    requires Select(page, keep).Some? ==> rival.revision > Select(page, keep).value.revision
    ensures IsPage(page, hot + {rival}, lowest, target)
    ensures !Answers(Select(page, keep), Wanted(hot + {rival}, lowest, target, keep))
  {
    SelectIsGreatest(page, keep);
    var r := Select(page, keep);
    assert page[|page| - 1] in page;
    if r.Some? {
      var k :| 0 <= k < |page| && page[k] == r.value;
      assert r.value.source >= page[|page| - 1].source;
    }
    assert rival in Wanted(hot + {rival}, lowest, target, keep);
  }

  /** A stored name agrees with the query's as it is exactly when it carries no surrounding spaces. */
  lemma {:induction false} FoldsWhenTrimmed(stored: string, asked: string)
    requires ToLower(TrimSpace(stored)) == ToLower(asked)
    ensures EqualFold(stored, asked) <==> TrimSpace(stored) == stored
  {
    hide TrimSpace;
    TrimSpaceCuts(stored);
    assert |ToLower(TrimSpace(stored))| == |TrimSpace(stored)| && |ToLower(asked)| == |asked| && |ToLower(stored)| == |stored|;
  }

  /** Of the snapshots that share the key of the query's stream, the filter keeps exactly those that
      are confirmed, whose stored authority and kind are trimmed, in time and not revoked. */
  lemma {:induction false} UntrimmedIsNeverFound(s: Snapshot, q: Query, hidden: set<string>)
    requires q.authority == TrimSpace(q.authority) && q.kind == TrimSpace(q.kind)
    requires ToLower(TrimSpace(s.authority)) == ToLower(q.authority) && ToUpper(TrimSpace(s.kind)) == ToUpper(q.kind)
    ensures Passes(s, q, hidden) <==>
            && s.confirmed && TrimSpace(s.authority) == s.authority && TrimSpace(s.kind) == s.kind
            && s.source <= q.target && TrimSpace(s.id) !in hidden
  {
    hide TrimSpace, ToLower, ToUpper, EqualFold;
    CaseMapsIdentify(TrimSpace(s.kind), q.kind);
    FoldsWhenTrimmed(s.authority, q.authority);
    FoldsWhenTrimmed(s.kind, q.kind);
  }

  // --------------------------------------------------- the search on one stream

  /** A snapshot as publishers are meant to write it: publishable, on this stream, names trimmed. */
  predicate OnStream(s: Snapshot, q: Query, category: string, market: string, symbol: string) {
    && Publishable(s) && Names(StreamName(q.authority, q.kind, category, market, symbol), s)
    && TrimSpace(s.authority) == s.authority && TrimSpace(s.kind) == s.kind
  }

  /** The history the query is about, in terms of revocation and time alone. */
  ghost function Unrevoked(history: set<Snapshot>, q: Query, hidden: set<string>): set<Snapshot> {
    set s | s in history && q.lowest <= s.source <= q.target && TrimSpace(s.id) !in hidden
  }

  /** On a stream whose publishers trim their names the search returns a greatest snapshot of the
      whole unrevoked history in range, for every interleaved run, and none only if there is none:
      no test of the loop hides a snapshot of the stream. */
  lemma {:induction false} SearchIsComplete(
      events: seq<Event>, window: nat, page: seq<Snapshot>, q: Query, hidden: set<string>,
      category: string, market: string, symbol: string)
    requires q.authority == TrimSpace(q.authority) && q.kind == TrimSpace(q.kind)
    requires forall s :: s in Run(events, window).scripted ==> OnStream(s, q, category, market, symbol)
    requires IsPage(page, Run(events, window).stream.hot, q.lowest, q.target)
    requires Run(events, window).stream.latest.Some? ==>
               q.lowest >= Run(events, window).stream.latest.value.source - window
    requires PageDecides(page, Filter(q, hidden))
    ensures Answers(Select(page, Filter(q, hidden)), Unrevoked(Run(events, window).published, q, hidden))
  {
    hide Run, PageDecides, OnStream, IsPage;
    SearchAgreesWithHistory(events, window, page, q, hidden);
    LatestAndHotWindow(events, window);
    var published := Run(events, window).published;
    forall s | s in published ensures Passes(s, q, hidden) <==> s.source <= q.target && TrimSpace(s.id) !in hidden {
      StreamPasses(s, q, hidden, category, market, symbol);
    }
    assert Wanted(published, q.lowest, q.target, Filter(q, hidden)) == Unrevoked(published, q, hidden);
  }

  lemma {:induction false} StreamPasses(s: Snapshot, q: Query, hidden: set<string>, category: string, market: string, symbol: string)
    requires q.authority == TrimSpace(q.authority) && q.kind == TrimSpace(q.kind) && OnStream(s, q, category, market, symbol)
    ensures Passes(s, q, hidden) <==> s.source <= q.target && TrimSpace(s.id) !in hidden
  {
    hide TrimSpace, ToLower, ToUpper, EqualFold, Passes, SameFolded;
    CaseMapsIdentify(q.authority, TrimSpace(s.authority));
    CaseMapsIdentify(q.kind, TrimSpace(s.kind));
    UntrimmedIsNeverFound(s, q, hidden);
  }

  // ------------------------------------------------------------- the store

  datatype Failure = InvalidSnapshot | InvalidRevocation | InvalidQuery | Unavailable | NoneValid
  datatype Result<+T> = Ok(value: T) | Err(failure: Failure)

  const NANOS_PER_MILLI := 1_000_000
  const DEFAULT_HOT_WINDOW := 30 * 60 * 1000 * NANOS_PER_MILLI

  /** `window` is the hot window in whole milliseconds, half an hour unless a positive one is set; a
      positive one below a millisecond is 0, not the default. */
  predicate IsWindow(window: nat, hotWindow: int) {
    if hotWindow <= 0 then window == 1_800_000 else 0 <= hotWindow - 1_000_000 * window < 1_000_000
  }

  class SnapshotStore {
    var latest: map<string, Snapshot>
    var hot: map<string, set<Snapshot>>
    var revoked: set<string>
    var hotWindow: int  // a Duration; not positive means the default

    constructor ()
      ensures latest == map[] && hot == map[] && revoked == {} && hotWindow == DEFAULT_HOT_WINDOW
    {
      latest, hot, revoked, hotWindow := map[], map[], {}, DEFAULT_HOT_WINDOW;
    }

    function At(k: string): Stream
      reads this
    {
      Stream(if k in latest then Some(latest[k]) else None, if k in hot then hot[k] else {})
    }

    method RunLatestScript(k: string, incoming: Snapshot) returns (latestSource: int)
      modifies this`latest
      ensures At(k) == AfterScript(old(At(k)), incoming)
      ensures latestSource == ScriptReply(old(At(k)), incoming)
      ensures forall other :: other != k ==> At(other) == old(At(other))
    {
      if k in latest {
        var current := latest[k];
        if current.source > incoming.source ||
           (current.source == incoming.source && current.revision > incoming.revision) ||
           (current.source == incoming.source && current.revision == incoming.revision
            && current.reception >= incoming.reception) {
          return current.source;
        }
      }
      latest := latest[k := incoming];
      return incoming.source;
    }

    method RunHotPipeline(k: string, s: Snapshot, cutoff: int)
      modifies this`hot
      ensures At(k) == AfterPipeline(old(At(k)), s, cutoff)
      ensures forall other :: other != k ==> At(other) == old(At(other))
    {
      var members := if k in hot then hot[k] else {};
      if s.source >= cutoff {
        members := members + {s};
      }
      hot := hot[k := set x | x in members && !(x.source < cutoff)];
    }

    method PublishAt(k: string, s: Snapshot, window: nat)
      modifies this`latest, this`hot
      ensures At(k) == AfterPublish(old(At(k)), s, window)
      ensures forall other :: other != k ==> At(other) == old(At(other))
    {
      var latestSource := RunLatestScript(k, s);
      RunHotPipeline(k, s, latestSource - window);
    }

    method PublishAuthoritativeSnapshot(s: Snapshot) returns (r: Result<()>)
      modifies this`latest, this`hot
      ensures r.Ok? <==> Publishable(s)
      ensures r.Err? ==> unchanged(this)
      ensures r.Ok? ==> forall window: nat, n :: IsWindow(window, hotWindow) && Names(n, s) ==>
                At(StreamKey(n)) == AfterPublish(old(At(StreamKey(n))), s, window)
      ensures r.Ok? ==> forall n :: !Names(n, s) && (ColonFree(n) || ColonFree(NameOf(s))) ==>
                At(StreamKey(n)) == old(At(StreamKey(n)))
      ensures r.Ok? ==> forall k :: k != StreamKey(NameOf(s)) ==> At(k) == old(At(k))
    {
      if s.id == "" || !s.confirmed || s.authority == "" || s.source <= 0 {
        return Err(InvalidSnapshot);
      }
      var duration := if hotWindow <= 0 then DEFAULT_HOT_WINDOW else hotWindow;
      PublishAt(StreamKey(NameOf(s)), s, duration / NANOS_PER_MILLI);
      forall n ensures SameStream(n, NameOf(s)) ==> StreamKey(n) == StreamKey(NameOf(s))
               ensures ColonFree(n) || ColonFree(NameOf(s)) ==> (StreamKey(n) == StreamKey(NameOf(s)) <==> SameStream(n, NameOf(s)))
      {
        StreamsHaveTheirOwnKeys(n, NameOf(s));
      }
      return Ok(());
    }

    method RevokeAuthoritativeSnapshot(snapshotId: string, replacementId: string, reason: string) returns (r: Result<()>)
      modifies this`revoked
      ensures r.Ok? <==> TrimSpace(snapshotId) != "" && TrimSpace(reason) != ""
                         && TrimSpace(snapshotId) != TrimSpace(replacementId)
      ensures revoked == if r.Ok? then old(revoked) + {TrimSpace(snapshotId)} else old(revoked)
    {
      var id, replacement, why := TrimSpace(snapshotId), TrimSpace(replacementId), TrimSpace(reason);
      if id == "" || why == "" || id == replacement {
        return Err(InvalidRevocation);
      }
      revoked := revoked + {id};
      return Ok(());
    }

    /** The search loop. `page` is the reply of Redis for this query; `unreachable` holds the ids
        whose revocation lookup fails, which the loop treats as revoked. */
    method FindAuthoritativeSnapshotAt(
        authority: string, kind: string, category: string, market: string, symbol: string,
        target: int, maxLookback: int, page: seq<Snapshot>, unreachable: set<string>)
      returns (r: Result<Snapshot>)
      requires maxLookback > 0 ==>
                 IsPage(page, At(StreamKey(StreamName(authority, kind, category, market, symbol))).hot,
                        target - maxLookback / NANOS_PER_MILLI, target)
      ensures
        var q := Query(TrimSpace(authority), ToUpper(TrimSpace(kind)), target, target - maxLookback / NANOS_PER_MILLI);
        var best := Select(page, Filter(q, revoked + unreachable));
        r == if target <= 0 || maxLookback <= 0 || q.authority == "" || q.kind == "" then Err(InvalidQuery)
             else if page == [] then Err(Unavailable)
             else if best.None? then Err(NoneValid)
             else Ok(best.value)
    {
      hide TrimSpace, ToUpper, ToLower, StreamKey, IsPage;
      var folded := ToUpper(TrimSpace(kind));
      if target <= 0 || maxLookback <= 0 || TrimSpace(authority) == "" || folded == "" {
        return Err(InvalidQuery);
      }
      if |page| == 0 {
        return Err(Unavailable);
      }
      ghost var q := Query(TrimSpace(authority), folded, target, target - maxLookback / NANOS_PER_MILLI);
      var selected: Option<Snapshot> := None;
      for i := 0 to |page|
        invariant selected == Select(page[..i], Filter(q, revoked + unreachable))
      {
        assert page[..i + 1][..i] == page[..i];
        var candidate := page[i];
        if !candidate.confirmed || !EqualFold(candidate.authority, TrimSpace(authority))
           || !EqualFold(candidate.kind, folded) || candidate.source > target {
          continue;
        }
        if TrimSpace(candidate.id) in unreachable || TrimSpace(candidate.id) in revoked {
          continue;
        }
        if selected.None? || candidate.source > selected.value.source ||
           (candidate.source == selected.value.source && candidate.revision > selected.value.revision) ||
           (candidate.source == selected.value.source && candidate.revision == selected.value.revision
            && candidate.reception > selected.value.reception) {
          selected := Some(candidate);
        }
      }
      assert page[..|page|] == page;
      if selected.None? {
        return Err(NoneValid);
      }
      return Ok(selected.value);
    }
  }
}
