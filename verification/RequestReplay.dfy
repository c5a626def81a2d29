/** Request encryption: the timestamp window and the one-time nonces of decryptRequest, over whole
    runs. Instants are nanoseconds since the Unix epoch on one clock. */
module RequestReplay {
  import opened Text
  import opened Utf8

  const SECOND := 1_000_000_000
  const MAX_INT64 := 0x7fff_ffff_ffff_ffff
  const MIN_INT64 := -0x8000_0000_0000_0000
  /** Seconds from the year 1, where Go's Time counts from, to the Unix epoch. */
  const EPOCH := 62_135_596_800

  // ------------------------------------------------------------ the time window

  /** strconv.ParseInt(s, 10, 64) */
  function ParseInt64(s: string): Option<int> {
    var signed := s != "" && (s[0] == '-' || s[0] == '+');
    var digits := if signed then s[1..] else s;
    if digits == "" || !AllDigits(digits) then None
    else
      var n: int := if signed && s[0] == '-' then -(Value(digits) as int) else Value(digits);
      if MIN_INT64 <= n <= MAX_INT64 then Some(n) else None
  }

  /** The texts that are read: digits after at most one sign, and a value that fits an int64. */
  lemma {:induction false} IntegerForms(s: string, n: int)
    ensures ParseInt64(s) == Some(n) <==>
            && -0x8000_0000_0000_0000 <= n < 0x8000_0000_0000_0000
            && exists d :: d != "" && AllDigits(d) && (((s == d || s == "+" + d) && n == Value(d)) || (s == "-" + d && -n == Value(d)))
  {
    hide Value;
    assert forall d :: s == "+" + d || s == "-" + d ==> s[1..] == d;
    if ParseInt64(s) == Some(n) {
      var d := if s[0] == '-' || s[0] == '+' then s[1..] else s;
      assert s == d || s == "+" + d || s == "-" + d;
    }
  }

  /** now.Sub(time.Unix(seconds, 0)): exact when it fits a Duration, saturated otherwise. The
      direction is decided on the internal seconds, which wrap past the last representable year. */
  function SinceStamp(now: int, seconds: int): int {
    var d := now - seconds * SECOND;
    if MIN_INT64 <= d <= MAX_INT64 then d
    else if d < 0 && seconds + EPOCH <= MAX_INT64 then MIN_INT64
    else MAX_INT64
  }

  /** The smallest Duration has no positive counterpart and negates to itself. */
  function AbsDuration(d: int): int {
    if d >= 0 || d == MIN_INT64 then d else -d
  }

  predicate InWindow(now: int, seconds: int, skew: nat) { AbsDuration(SinceStamp(now, seconds)) <= skew }

  function Distance(a: int, b: int): nat { if a <= b then b - a else a - b }

  /** Stamps more than 292 years ahead, where the difference saturates. */
  predicate BeyondRange(now: int, seconds: int) {
    var ahead := seconds * SECOND - now;
    ahead == -MIN_INT64 || (ahead > -MIN_INT64 && seconds <= 0x7fff_ffff_ffff_ffff - 62_135_596_800)
  }

  /** The window is the skew on either side of the clock, and the stamps whose distance saturates. */
  lemma {:induction false} WindowIsExact(now: int, seconds: int, skew: nat)
    requires skew < MAX_INT64
    ensures InWindow(now, seconds, skew) <==> Distance(now, seconds * SECOND) <= skew || BeyondRange(now, seconds)
  {
    var d := now - seconds * SECOND;
    if MIN_INT64 < d <= MAX_INT64 {
      assert AbsDuration(SinceStamp(now, seconds)) == Distance(now, seconds * SECOND);
    }
  }

  /** A stamp in the year 2500, checked in 2026, whatever the skew. */
  lemma {:induction false} FarStampPasses(skew: nat)
    requires skew < MAX_INT64
    ensures var now, stamp := 1_767_225_600, 16_725_225_600;
            InWindow(now * SECOND, stamp, skew) && Distance(now * SECOND, stamp * SECOND) > 400 * 365 * 86_400 * SECOND
  {
    WindowIsExact(1_767_225_600 * SECOND, 16_725_225_600, skew);
  }

  // ------------------------------------------------------------------ requests

  const VERSION := "v1"

  datatype Location = Json | Form | Query | Path

  datatype Session = Session(version: string, rsaKid: string, expiresAt: int)

  datatype Config = Config(scope: string, rsaKid: string, skew: nat, nonceTTL: nat)

  /** What GetSession finds: nothing (a failing Redis included), text that is no session, or one. */
  datatype Lookup = Missing | Malformed | Stored(session: Session)

  /** How the nonce command ends: with an answer, or with an error before or after it took effect. */
  datatype Command = Answered | FailedBefore | FailedAfter

  /** The five headers after trimming, the location the route's rule asks for, and what the
      environment answers: the stored session, the end of the nonce command, the clock at the three
      points where it is read or used, and whether the ciphertext opens. */
  datatype Request = Request(
    version: string, location: Location, expected: Location, keyId: string, timestamp: string, nonce: string,
    session: Lookup, command: Command, checkedAt: int, sessionAt: int, usedAt: int, opens: bool)

  datatype Outcome = InvalidPayload | KeyExpired | StoreFailed | Replayed | Undecryptable | Accepted

  predicate IsURLSafe(s: string) {
    forall i :: 0 <= i < |s| ==> 'a' <= s[i] <= 'z' || 'A' <= s[i] <= 'Z' || IsDigit(s[i]) || s[i] == '-' || s[i] == '_'
  }

  predicate HeadersOk(r: Request) {
    r.version == VERSION && r.location == r.expected && r.keyId != "" && 16 <= Size(r.nonce) <= 64 && IsURLSafe(r.nonce)
  }

  predicate StampOk(r: Request, c: Config) {
    ParseInt64(r.timestamp).Some? && InWindow(r.checkedAt, ParseInt64(r.timestamp).value, c.skew)
  }

  predicate SessionOk(r: Request, c: Config) {
    && r.session.Stored? && r.session.session.version == VERSION && r.session.session.rsaKid == c.rsaKid
    && r.session.session.expiresAt > r.sessionAt
  }

  function NonceKey(scope: string, keyId: string, nonce: string): string {
    "security:encryption:" + scope + ":nonce:" + keyId + [':'] + nonce
  }

  /** The seconds SETNX EX is given: at least one. */
  function Lifetime(c: Config): nat {
    if c.nonceTTL / SECOND >= 1 then c.nonceTTL / SECOND * SECOND else SECOND
  }

  predicate LiveNonce(used: map<string, int>, key: string, now: int) { key in used && now < used[key] }

  /** Every check before the nonce command passes. */
  predicate ReachesNonce(r: Request, c: Config) {
    HeadersOk(r) && StampOk(r, c) && r.location != Path && SessionOk(r, c)
  }

  function Decide(used: map<string, int>, r: Request, c: Config): Outcome {
    if !HeadersOk(r) || !StampOk(r, c) || r.location == Path || r.session.Malformed? then InvalidPayload
    else if !SessionOk(r, c) then KeyExpired
    else if r.command != Answered then StoreFailed
    else if LiveNonce(used, NonceKey(c.scope, r.keyId, r.nonce), r.usedAt) then Replayed
    else if !r.opens then Undecryptable
    else Accepted
  }

  /** The nonce is spent even when the ciphertext then does not open. */
  predicate Spends(o: Outcome) { o == Accepted || o == Undecryptable }

  function After(used: map<string, int>, r: Request, c: Config): map<string, int> {
    var key := NonceKey(c.scope, r.keyId, r.nonce);
    if ReachesNonce(r, c) && r.command != FailedBefore && !LiveNonce(used, key, r.usedAt)
    then used[key := r.usedAt + Lifetime(c)] else used
  }

  class Middleware {
    const config: Config
    var used: map<string, int>

    constructor (config: Config)
      ensures this.config == config && used == map[]
    {
      this.config, used := config, map[];
    }

    /** SETNX EX: the answer, or nothing when the command fails. */
    method UseNonce(keyId: string, nonce: string, now: int, command: Command) returns (unused: Option<bool>)
      modifies this
      ensures unused == if command == Answered then Some(!LiveNonce(old(used), NonceKey(config.scope, keyId, nonce), now)) else None
      ensures used == if command != FailedBefore && !LiveNonce(old(used), NonceKey(config.scope, keyId, nonce), now)
                      then old(used)[NonceKey(config.scope, keyId, nonce) := now + Lifetime(config)] else old(used)
    {
      var key := NonceKey(config.scope, keyId, nonce);
      if command == FailedBefore {
        return None;
      }
      var live := key in used && now < used[key];
      if !live {
        used := used[key := now + Lifetime(config)];
      }
      return if command == Answered then Some(!live) else None;
    }

    method CheckURLSafe(value: string) returns (safe: bool)
      ensures safe <==> IsURLSafe(value)
    {
      for i := 0 to |value|
        invariant IsURLSafe(value[..i])
      {
        var c := value[i];
        if !('a' <= c <= 'z' || 'A' <= c <= 'Z' || '0' <= c <= '9' || c == '-' || c == '_') {
          return false;
        }
      }
      assert value[..|value|] == value;
      return true;
    }

    method DecryptRequest(r: Request) returns (o: Outcome)
      modifies this
      ensures o == Decide(old(used), r, config)
      ensures used == After(old(used), r, config)
    {
      hide NonceKey, ParseInt64, Size;
      var safe := CheckURLSafe(r.nonce);
      if r.version != VERSION || r.location != r.expected || r.keyId == "" || Size(r.nonce) < 16 || Size(r.nonce) > 64 || !safe {
        return InvalidPayload;
      }
      var seconds := ParseInt64(r.timestamp);
      if seconds.None? || AbsDuration(SinceStamp(r.checkedAt, seconds.value)) > config.skew {
        return InvalidPayload;
      }
      if r.location == Path {
        return InvalidPayload;
      }
      if r.session.Missing? {
        return KeyExpired;
      }
      if r.session.Malformed? {
        return InvalidPayload;
      }
      var session := r.session.session;
      if session.version != VERSION || session.rsaKid != config.rsaKid || session.expiresAt <= r.sessionAt {
        return KeyExpired;
      }
      var unused := UseNonce(r.keyId, r.nonce, r.usedAt, r.command);
      if unused.None? {
        return StoreFailed;
      }
      if !unused.value {
        return Replayed;
      }
      return if r.opens then Accepted else Undecryptable;
    }
  }

  // ------------------------------------------------------------------ whole runs

  /** Requests in the order their nonce commands reach the store; each takes its steps in order
      and reaches the store at most `delay` after its stamp was checked. */
  predicate IsRun(run: seq<Request>, delay: nat) {
    && (forall i :: 0 <= i < |run| ==> run[i].checkedAt <= run[i].usedAt <= run[i].checkedAt + delay)
    && forall i, j :: 0 <= i < j < |run| ==> run[i].usedAt <= run[j].usedAt
  }

  function UsedAfter(run: seq<Request>, c: Config): map<string, int> {
    if run == [] then map[] else After(UsedAfter(run[..|run| - 1], c), run[|run| - 1], c)
  }

  function OutcomeAt(run: seq<Request>, j: nat, c: Config): Outcome
    requires j < |run|
  {
    Decide(UsedAfter(run[..j], c), run[j], c)
  }

  /** Distinct (key id, nonce) pairs never share a store key: a safe nonce holds no colon. */
  lemma {:induction false} NonceKeysAreDistinct(scope: string, keyId: string, nonce: string, otherId: string, other: string)
    requires IsURLSafe(nonce) && IsURLSafe(other)
    requires NonceKey(scope, keyId, nonce) == NonceKey(scope, otherId, other)
    ensures keyId == otherId && nonce == other
  {
    var head := "security:encryption:" + scope + ":nonce:";
    LastSeparatorUnique(head + keyId, nonce, head + otherId, other, ':');
    assert (head + keyId)[|head|..] == keyId && (head + otherId)[|head|..] == otherId;
  }

  /** A spent nonce stays recorded for its whole lifetime. */
  lemma {:induction false} SpentStaysRecorded(run: seq<Request>, i: nat, j: nat, c: Config, delay: nat)
    requires IsRun(run, delay) && i < j <= |run| && Spends(OutcomeAt(run, i, c))
    ensures var key := NonceKey(c.scope, run[i].keyId, run[i].nonce);
            key in UsedAfter(run[..j], c) && UsedAfter(run[..j], c)[key] >= run[i].usedAt + Lifetime(c)
    decreases j
  {
    hide HeadersOk, StampOk, SessionOk, NonceKey, Lifetime;
    assert run[..j][..j - 1] == run[..j - 1] && run[..j][j - 1] == run[j - 1];
    if i < j - 1 {
      SpentStaysRecorded(run, i, j - 1, c, delay);
    }
  }

  /** What a request must be by itself, its nonce's past aside. */
  predicate Presentable(r: Request, c: Config) {
    && r.version == "v1" && r.keyId != "" && r.location == r.expected && r.location != Path
    && 16 <= Size(r.nonce) <= 64 && IsURLSafe(r.nonce)
    && ParseInt64(r.timestamp).Some? && InWindow(r.checkedAt, ParseInt64(r.timestamp).value, c.skew)
    && r.session.Stored? && r.session.session.version == "v1" && r.session.session.rsaKid == c.rsaKid
    && r.sessionAt < r.session.session.expiresAt
  }

  /** The request at `i` took its nonce for a lifetime, whatever it was answered. */
  predicate Takes(run: seq<Request>, i: nat, c: Config)
    requires i < |run|
  {
    UsedAfter(run[..i + 1], c) != UsedAfter(run[..i], c)
  }

  predicate SamePair(a: Request, b: Request) { a.keyId == b.keyId && a.nonce == b.nonce }

  /** The nonces in force after a run are those that some request took less than a lifetime ago. */
  lemma {:induction false} LiveNonceHistory(run: seq<Request>, n: nat, r: Request, c: Config, delay: nat)
    requires IsRun(run, delay) && n <= |run| && IsURLSafe(r.nonce)
    requires forall i :: 0 <= i < n ==> run[i].usedAt <= r.usedAt
    ensures LiveNonce(UsedAfter(run[..n], c), NonceKey(c.scope, r.keyId, r.nonce), r.usedAt) <==>
            exists i :: 0 <= i < n && SamePair(run[i], r) && Takes(run, i, c) && r.usedAt < run[i].usedAt + Lifetime(c)
    decreases n
  {
    hide NonceKey, Lifetime, ReachesNonce, Takes;
    if n > 0 {
      var m := n - 1;
      LiveNonceHistory(run, m, r, c, delay);
      var last, key := run[m], NonceKey(c.scope, r.keyId, r.nonce);
      assert run[..n][..m] == run[..m];
      TakesMeans(run, m, c);
      if Takes(run, m, c) && NonceKey(c.scope, last.keyId, last.nonce) == key {
        NonceKeysAreDistinct(c.scope, last.keyId, last.nonce, r.keyId, r.nonce);
        NoEarlierLife(run, m, r, c, delay);
      }
    }
  }

  lemma {:induction false} TakesMeans(run: seq<Request>, i: nat, c: Config)
    requires i < |run|
    ensures var used, key := UsedAfter(run[..i], c), NonceKey(c.scope, run[i].keyId, run[i].nonce);
            && UsedAfter(run[..i + 1], c) == After(used, run[i], c)
            && (Takes(run, i, c) ==>
                  ReachesNonce(run[i], c) && IsURLSafe(run[i].nonce) && !LiveNonce(used, key, run[i].usedAt)
                  && UsedAfter(run[..i + 1], c) == used[key := run[i].usedAt + Lifetime(c)])
            && (!Takes(run, i, c) ==> UsedAfter(run[..i + 1], c) == used)
            && (Takes(run, i, c) <==> ReachesNonce(run[i], c) && run[i].command != FailedBefore && !LiveNonce(used, key, run[i].usedAt))
  {
    hide NonceKey, StampOk, SessionOk, Size, IsURLSafe;
    assert run[..i + 1][..i] == run[..i];
    LifetimeIsPositive(c);
  }

  /** A nonce lives for whole seconds: those of the configured lifetime, and at least one. */
  lemma {:induction false} LifetimeIsPositive(c: Config)
    ensures Lifetime(c) >= 1_000_000_000 && Lifetime(c) % 1_000_000_000 == 0
    ensures c.nonceTTL >= 1_000_000_000 ==> Lifetime(c) <= c.nonceTTL < Lifetime(c) + 1_000_000_000
    ensures c.nonceTTL < 1_000_000_000 ==> Lifetime(c) == 1_000_000_000
  {
  }

  /** A request that takes a nonce found no earlier one of its pair in force. */
  lemma {:induction false} NoEarlierLife(run: seq<Request>, m: nat, r: Request, c: Config, delay: nat)
    requires IsRun(run, delay) && m < |run| && Takes(run, m, c) && SamePair(run[m], r) && run[m].usedAt <= r.usedAt
    ensures r.usedAt < run[m].usedAt + Lifetime(c) <==>
            LiveNonce(UsedAfter(run[..m + 1], c), NonceKey(c.scope, r.keyId, r.nonce), r.usedAt)
  {
    hide NonceKey, Lifetime, ReachesNonce, Takes, IsRun;
    TakesMeans(run, m, c);
  }

  /** In every run a request gets through, its ciphertext aside, exactly when it is presentable, its
      nonce command is answered, and no request before it took the same key id and nonce less than a
      lifetime ago. */
  lemma {:induction false} AcceptanceIsExact(run: seq<Request>, j: nat, c: Config, delay: nat)
    requires IsRun(run, delay) && j < |run|
    ensures Spends(OutcomeAt(run, j, c)) <==>
            && Presentable(run[j], c) && run[j].command == Answered
            && forall i :: 0 <= i < j && SamePair(run[i], run[j]) && Takes(run, i, c) ==> run[j].usedAt >= run[i].usedAt + Lifetime(c)
    ensures OutcomeAt(run, j, c) == Accepted <==> Spends(OutcomeAt(run, j, c)) && run[j].opens
  {
    hide NonceKey, Lifetime, InWindow, ParseInt64, Size, IsURLSafe, Takes, LiveNonce;
    if Presentable(run[j], c) {
      LiveNonceHistory(run, j, run[j], c, delay);
    }
  }

  /** In every run, two uses of the same key id and nonce that both get through are a whole
      lifetime apart. */
  lemma {:induction false} AcceptancesApart(run: seq<Request>, i: nat, j: nat, c: Config, delay: nat)
    requires IsRun(run, delay) && i < j < |run|
    requires run[i].keyId == run[j].keyId && run[i].nonce == run[j].nonce
    requires Spends(OutcomeAt(run, i, c)) && Spends(OutcomeAt(run, j, c))
    ensures run[j].usedAt - run[i].usedAt >= Lifetime(c)
  {
    hide NonceKey, Lifetime, HeadersOk, StampOk, SessionOk;
    SpentStaysRecorded(run, i, j, c, delay);
  }

  /** The same key id, time and nonce get through twice. */
  predicate ReplayAt(run: seq<Request>, i: nat, j: nat, c: Config)
    requires i < j < |run|
  {
    && run[i].keyId == run[j].keyId && run[i].nonce == run[j].nonce
    && ParseInt64(run[i].timestamp) == ParseInt64(run[j].timestamp)
    && Spends(OutcomeAt(run, i, c)) && Spends(OutcomeAt(run, j, c))
  }

  /** No stamp in the run is so far ahead that its distance saturates. */
  predicate Ordinary(run: seq<Request>) {
    forall i :: 0 <= i < |run| && ParseInt64(run[i].timestamp).Some? ==> !BeyondRange(run[i].checkedAt, ParseInt64(run[i].timestamp).value)
  }

  ghost predicate ReplayFree(c: Config, delay: nat) {
    forall run: seq<Request>, i: nat, j: nat ::
      IsRun(run, delay) && Ordinary(run) && i < j < |run| ==> !ReplayAt(run, i, j, c)
  }

  lemma {:induction false} PassedChecks(used: map<string, int>, r: Request, c: Config)
    requires Spends(Decide(used, r, c)) && c.skew < MAX_INT64
    requires ParseInt64(r.timestamp).Some? ==> !BeyondRange(r.checkedAt, ParseInt64(r.timestamp).value)
    ensures ParseInt64(r.timestamp).Some? && Distance(r.checkedAt, ParseInt64(r.timestamp).value * SECOND) <= c.skew
  {
    hide ParseInt64, HeadersOk, SessionOk, NonceKey, InWindow;
    WindowIsExact(r.checkedAt, ParseInt64(r.timestamp).value, c.skew);
  }

  lemma {:induction false} LongLifetimeStopsReplays(run: seq<Request>, i: nat, j: nat, c: Config, delay: nat)
    requires IsRun(run, delay) && Ordinary(run) && i < j < |run| && c.skew < MAX_INT64
    requires Lifetime(c) > 2 * c.skew + delay
    ensures !ReplayAt(run, i, j, c)
  {
    hide ParseInt64, Lifetime, Decide;
    if ReplayAt(run, i, j, c) {
      AcceptancesApart(run, i, j, c, delay);
      PassedChecks(UsedAfter(run[..i], c), run[i], c);
      PassedChecks(UsedAfter(run[..j], c), run[j], c);
    }
  }

  function PlainNonce(): string { seq(16, i => 'a') }

  /** A request that passes every check but perhaps the window. */
  function Sample(c: Config, stamp: string, checkedAt: int, usedAt: int): Request {
    Request(VERSION, Json, Json, "k", stamp, PlainNonce(), Stored(Session(VERSION, c.rsaKid, usedAt + 1)), Answered, checkedAt, usedAt, usedAt, true)
  }

  lemma {:induction false} PlainNonceIsOk()
    ensures IsURLSafe(PlainNonce()) && Size(PlainNonce()) == 16
  {
    hide Size;
    assert Ascii(PlainNonce());
    AsciiSize(PlainNonce());
  }

  lemma {:induction false} SampleStamp()
    ensures ParseInt64("3600") == Some(3600)
  {
    var s := "3600";
    assert s[..3] == "360" && "360"[..2] == "36" && "36"[..1] == "3" && "3"[..0] == "";
    assert Value("3") == 3;
    assert Value("36") == 36;
    assert Value("360") == 360;
    assert Value(s) == 3600;
  }

  lemma {:induction false} SampleIsWellFormed(c: Config, stamp: string, checkedAt: int, usedAt: int)
    ensures HeadersOk(Sample(c, stamp, checkedAt, usedAt)) && SessionOk(Sample(c, stamp, checkedAt, usedAt), c)
  {
    hide Size, IsURLSafe;
    PlainNonceIsOk();
  }

  /** Two such requests with one stamp, the second at least a lifetime later, both get through if
      both pass the window. */
  lemma {:induction false} SamplesReplay(c: Config, stamp: string, first: int, second: int, used: int, delay: nat)
    requires ParseInt64(stamp).Some? && InWindow(first, ParseInt64(stamp).value, c.skew) && InWindow(second, ParseInt64(stamp).value, c.skew)
    requires first + Lifetime(c) <= used && second <= used <= second + delay
    ensures var run := [Sample(c, stamp, first, first), Sample(c, stamp, second, used)]; IsRun(run, delay) && ReplayAt(run, 0, 1, c)
  {
    hide HeadersOk, SessionOk, ParseInt64, NonceKey, InWindow;
    var a, b := Sample(c, stamp, first, first), Sample(c, stamp, second, used);
    var run := [a, b];
    SampleIsWellFormed(c, stamp, first, first);
    SampleIsWellFormed(c, stamp, second, used);
    assert run[..0] == [] && run[..1] == [a] && run[..1][..0] == [];
    assert OutcomeAt(run, 0, c) == Accepted;
    assert UsedAfter(run[..1], c) == After(map[], a, c);
    assert OutcomeAt(run, 1, c) == Accepted;
  }

  lemma {:induction false} ShortLifetimeAdmitsReplay(c: Config, delay: nat)
    requires c.skew < MAX_INT64 && Lifetime(c) <= 2 * c.skew + delay
    ensures !ReplayFree(c, delay)
  {
    hide ParseInt64, Lifetime, InWindow, ReplayAt, Sample;
    var stamp := 3600 * SECOND;
    SampleStamp();
    WindowIsExact(stamp - c.skew, 3600, c.skew);
    WindowIsExact(stamp + c.skew, 3600, c.skew);
    SamplesReplay(c, "3600", stamp - c.skew, stamp + c.skew, stamp + c.skew + delay, delay);
    var run := [Sample(c, "3600", stamp - c.skew, stamp - c.skew), Sample(c, "3600", stamp + c.skew, stamp + c.skew + delay)];
    SampleTimes(c, "3600", stamp - c.skew, stamp - c.skew);
    SampleTimes(c, "3600", stamp + c.skew, stamp + c.skew + delay);
    assert Ordinary(run) && ReplayAt(run, 0, 1, c);
  }

  lemma {:induction false} SampleTimes(c: Config, stamp: string, checkedAt: int, usedAt: int)
    ensures var r := Sample(c, stamp, checkedAt, usedAt); r.checkedAt == checkedAt && r.timestamp == stamp
  {
  }

  /** With ordinary stamps, no (key id, time, nonce) gets through twice in any run exactly when the
      nonce lifetime exceeds twice the skew and the delay between the two checks. */
  lemma {:induction false} ReplayFreedom(c: Config, delay: nat)
    requires c.skew < MAX_INT64
    ensures ReplayFree(c, delay) <==> Lifetime(c) > 2 * c.skew + delay
  {
    hide IsRun, Ordinary, ReplayAt, Lifetime;
    if Lifetime(c) > 2 * c.skew + delay {
      forall run: seq<Request>, i: nat, j: nat | IsRun(run, delay) && Ordinary(run) && i < j < |run| ensures !ReplayAt(run, i, j, c) {
        LongLifetimeStopsReplays(run, i, j, c, delay);
      }
    } else {
      ShortLifetimeAdmitsReplay(c, delay);
    }
  }

  /** A stamp whose distance saturates now and one lifetime from now gets through at both times:
      no skew and no lifetime stops it. */
  lemma {:induction false} SaturatedStampsReplay(c: Config, delay: nat, stamp: string, now: int)
    requires c.skew < MAX_INT64 && ParseInt64(stamp).Some?
    requires BeyondRange(now, ParseInt64(stamp).value) && BeyondRange(now + Lifetime(c), ParseInt64(stamp).value)
    ensures exists run: seq<Request> ::
              IsRun(run, delay) && |run| == 2 && run[0].checkedAt == now && run[0].timestamp == stamp && ReplayAt(run, 0, 1, c)
  {
    hide ParseInt64, InWindow, ReplayAt, Lifetime, Sample, IsRun;
    var seconds, later := ParseInt64(stamp).value, now + Lifetime(c);
    WindowIsExact(now, seconds, c.skew);
    WindowIsExact(later, seconds, c.skew);
    SamplesReplay(c, stamp, now, later, later, delay);
    SampleTimes(c, stamp, now, now);
    var run := [Sample(c, stamp, now, now), Sample(c, stamp, later, later)];
    assert IsRun(run, delay) && |run| == 2 && run[0].checkedAt == now && run[0].timestamp == stamp;
  }

  /** The default skew and nonce lifetime are both two minutes: they do not meet the condition. */
  lemma {:induction false} DefaultsAdmitReplay(scope: string, rsaKid: string, delay: nat)
    ensures !ReplayFree(Config(scope, rsaKid, 120 * SECOND, 120 * SECOND), delay)
  {
    ReplayFreedom(Config(scope, rsaKid, 120 * SECOND, 120 * SECOND), delay);
  }
}
