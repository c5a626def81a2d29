/** The result manifest an air-gapped build signs, for every outcome of the executor. */
module AirgapResult {
  import opened Text
  import opened Utf8
  import opened AirgapManifest
  import opened AirgapPackage

  // ---------------------------------------------------------- error summaries

  const MAX_ERROR_BYTES := 2000

  /** strings.ReplaceAll of NUL and CR by nothing. */
  function Strip(s: string): string {
    if s == "" then ""
    else if s[0] == '\0' || s[0] == '\r' then Strip(s[1..])
    else [s[0]] + Strip(s[1..])
  }

  function CleanError(s: string): string { TrimSpace(Strip(s)) }

  /** sanitizeAirGappedError: the cut counts bytes, not runes. */
  function SanitizeError(s: string): Bytes {
    var b := Encode(CleanError(s));
    if |b| > MAX_ERROR_BYTES then b[..MAX_ERROR_BYTES] else b
  }

  lemma {:induction false} StripRemoves(s: string)
    ensures '\0' !in Strip(s) && '\r' !in Strip(s)
  {
    if s != "" {
      StripRemoves(s[1..]);
    }
  }

  /** Nothing else is removed: each character is dropped or kept by itself. */
  lemma {:induction false} StripIsPiecewise(a: string, b: string)
    ensures Strip(a + b) == Strip(a) + Strip(b)
    ensures forall c :: Strip([c]) == if c == '\0' || c == '\r' then "" else [c]
  {
    forall c ensures Strip([c]) == if c == '\0' || c == '\r' then "" else [c] {
      StripOne(c);
    }
    StripConcat(a, b);
  }

  lemma {:induction false} StripConcat(a: string, b: string)
    ensures Strip(a + b) == Strip(a) + Strip(b)
  {
    hide Strip;
    if a == "" {
      assert a + b == b;
      StripStart("");
    } else {
      var rest := a[1..];
      StripConcat(rest, b);
      StripStart(a);
      StripStart(a + b);
      assert (a + b)[0] == a[0] && (a + b)[1..] == rest + b;
      Associate(if a[0] == '\0' || a[0] == '\r' then "" else [a[0]], Strip(rest), Strip(b));
    }
  }

  lemma {:induction false} Associate(a: string, b: string, c: string)
    ensures a + (b + c) == (a + b) + c
  {
  }

  lemma {:induction false} StripOne(c: char)
    ensures Strip([c]) == if c == '\0' || c == '\r' then "" else [c]
  {
    assert [c][1..] == "" && [c] + "" == [c];
  }

  lemma {:induction false} StripStart(s: string)
    ensures Strip(s) == if s == "" then "" else (if s[0] == '\0' || s[0] == '\r' then "" else [s[0]]) + Strip(s[1..])
  {
  }

  lemma {:induction false} CleanErrorFacts(s: string)
    ensures '\0' !in CleanError(s) && '\r' !in CleanError(s)
    ensures CleanError(s) != "" ==> !IsSpace(CleanError(s)[0])
  {
    StripRemoves(s);
    TrimSpaceCuts(Strip(s));
  }

  lemma {:induction false} DecodeStartsWith(c: char, rest: Bytes)
    ensures var d := Decode(EncodeChar(c) + rest); d.Some? ==> d.value != "" && d.value[0] == c
  {
    hide EncodeChar, DecodeChar;
    DecodeEncodeChar(c, rest);
    assert EncodeChar(c) + rest != [];
  }

  lemma {:induction false} FirstRuneSurvives(s: string, n: nat)
    requires s != "" && !IsSpace(s[0]) && 4 <= n <= |Encode(s)|
    ensures !BlankBytes(Encode(s)[..n])
  {
    hide EncodeChar, Decode, IsSpace;
    var e := EncodeChar(s[0]);
    var cut := Encode(s)[..n];
    assert cut == e + cut[|e|..];
    DecodeStartsWith(s[0], cut[|e|..]);
  }

  /** Sanitised errors always satisfy the validator: short, no NUL or CR, and blank only if empty. */
  lemma {:induction false} SanitizedErrorIsValid(s: string)
    ensures |SanitizeError(s)| <= 2000 && 0x00 !in SanitizeError(s) && 0x0D !in SanitizeError(s)
    ensures BlankBytes(SanitizeError(s)) <==> SanitizeError(s) == []
  {
    hide IsSpace, BlankBytes;
    var clean := CleanError(s);
    CleanErrorFacts(s);
    ByteOrigin(clean, '\0');
    ByteOrigin(clean, '\r');
    NoByteInCut(clean);
    if clean != "" {
      var b := Encode(clean);
      assert b == EncodeChar(clean[0]) + Encode(clean[1..]);
      if |b| > MAX_ERROR_BYTES {
        FirstRuneSurvives(clean, MAX_ERROR_BYTES);
      } else {
        NonblankStart(clean);
      }
    } else {
      EmptyIsBlank();
    }
  }

  lemma {:induction false} NoByteInCut(clean: string)
    ensures var n := if |Encode(clean)| > MAX_ERROR_BYTES then MAX_ERROR_BYTES else |Encode(clean)|;
            forall x :: x in Encode(clean)[..n] ==> x in Encode(clean)
    ensures Encode(clean)[..|Encode(clean)|] == Encode(clean)
  {
  }

  lemma {:induction false} NonblankStart(s: string)
    requires s != "" && !IsSpace(s[0])
    ensures !BlankBytes(Encode(s))
  {
    DecodeEncode(s);
  }

  lemma {:induction false} EmptyIsBlank()
    ensures BlankBytes([])
  {
  }

  // ------------------------------------------------- when a byte cut splits a rune

  /** Cutting valid UTF-8 at `n` bytes leaves valid UTF-8 exactly when a rune ends there. */
  lemma {:induction false} CutIsValid(s: string, n: nat)
    requires n <= |Encode(s)|
    ensures Valid(Encode(s)[..n]) <==> exists k :: 0 <= k <= |s| && |Encode(s[..k])| == n
  {
    hide Encode, Decode;
    var cut := Encode(s)[..n];
    if Valid(cut) {
      var t := Decode(cut).value;
      PrefixOfEncoding(s, t);
      assert s[..|t|] == t && |Encode(t)| == n;
    }
    if k :| 0 <= k <= |s| && |Encode(s[..k])| == n {
      EncodeConcat(s[..k], s[k..]);
      assert s == s[..k] + s[k..];
      assert cut == Encode(s[..k]);
      DecodeEncode(s[..k]);
    }
  }

  lemma {:induction false} SameFirstRune(c: char, x: Bytes, d: char, y: Bytes)
    requires EncodeChar(c) + x == EncodeChar(d) + y
    ensures c == d && x == y
  {
    hide EncodeChar, DecodeChar;
    DecodeEncodeChar(c, x);
    DecodeEncodeChar(d, y);
    assert x == (EncodeChar(c) + x)[|EncodeChar(c)|..];
    assert y == (EncodeChar(d) + y)[|EncodeChar(d)|..];
  }

  lemma {:induction false} PrefixOfEncoding(s: string, t: string)
    requires Encode(t) <= Encode(s)
    ensures |t| <= |s| && s[..|t|] == t
  {
    hide EncodeChar;
    if t != "" {
      var e := EncodeChar(t[0]);
      var rest := Encode(s)[|Encode(t)|..];
      assert Encode(s) == Encode(t) + rest == e + (Encode(t[1..]) + rest);
      SameFirstRune(t[0], Encode(t[1..]) + rest, s[0], Encode(s[1..]));
      PrefixOfEncoding(s[1..], t[1..]);
      assert s == [s[0]] + s[1..] && t == [t[0]] + t[1..];
    }
  }

  /** True when the error summary needs no cut, or the cut falls between two runes. */
  ghost predicate CutsBetweenRunes(s: string) {
    var clean := CleanError(s);
    Size(clean) <= MAX_ERROR_BYTES || exists k :: 0 <= k <= |clean| && Size(clean[..k]) == MAX_ERROR_BYTES
  }

  lemma {:induction false} SanitizedIsValidUtf8(s: string)
    ensures Valid(SanitizeError(s)) <==> CutsBetweenRunes(s)
  {
    var clean := CleanError(s);
    SizeIsByteCount(clean);
    DecodeEncode(clean);
    forall k | 0 <= k <= |clean| ensures Size(clean[..k]) == |Encode(clean[..k])| {
      SizeIsByteCount(clean[..k]);
    }
    if |Encode(clean)| > MAX_ERROR_BYTES {
      CutIsValid(clean, MAX_ERROR_BYTES);
    }
  }

  // -------------------------------------------------------------- the manifest

  datatype BuildResult = BuildResult(
    apkPath: string, apkSize: Int64, apkSha256: string,
    logPath: string, logSize: Int64, logSha256: string, error: string)

  /** What hashing a named executor output finds: nothing usable, or a size and a digest. */
  datatype Probe = Unusable(reason: string) | File(size: Int64, digest: string)

  predicate ProbeSound(p: Probe) { p.File? ==> IsSha256(p.digest) }

  const INTEGRITY_ERROR := "local executor output integrity is invalid"

  datatype Checked = Accepted(artifact: Artifact) | Failed(reason: string)

  /** executorOutputArtifact */
  function OutputArtifact(role: string, path: string, name: string, contentType: string,
                          p: Probe, expectedSize: Int64, expectedSha256: string): Checked {
    match p
    case Unusable(reason) => Failed(reason)
    case File(size, digest) =>
      if size <= 0 || size > MAX_PACKAGE_BYTES || (expectedSize != 0 && expectedSize != size)
         || (expectedSha256 != "" && expectedSha256 != digest)
      then Failed(INTEGRITY_ERROR)
      else Accepted(Artifact(role, path, 0, 0, name, contentType, size, digest))
  }

  function Apk(p: Probe, r: BuildResult): Checked {
    OutputArtifact("built_apk", "outputs/built.apk", "built.apk", "application/vnd.android.package-archive", p, r.apkSize, r.apkSha256)
  }

  function Log(p: Probe, r: BuildResult): Checked {
    OutputArtifact("build_log", "outputs/build.log", "build.log", "text/plain; charset=utf-8", p, r.logSize, r.logSha256)
  }

  predicate IsApk(a: Artifact) { a.role == "built_apk" }

  /** What the filter is meant to leave. */
  function WithoutApk(items: seq<Artifact>): (r: seq<Artifact>)
    ensures |r| <= |items|
    ensures forall a :: a in r <==> a in items && !IsApk(a)
  {
    if items == [] then []
    else
      var front, last := items[..|items| - 1], items[|items| - 1];
      var rest := WithoutApk(front);
      assert items == front + [last];
      if IsApk(last) then rest else rest + [last]
  }

  /** The filter keeps order and repetitions: it works on each part of a list by itself, and drops
      or keeps a single artifact by its role. */
  lemma {:induction false} FilterSnoc(items: seq<Artifact>, x: Artifact)
    ensures WithoutApk(items + [x]) == WithoutApk(items) + Single(x)
  {
    hide IsApk;
    var all := items + [x];
    assert all[..|all| - 1] == items && all[|all| - 1] == x;
    assert WithoutApk(items) + [] == WithoutApk(items);
  }

  function Single(x: Artifact): seq<Artifact> { if IsApk(x) then [] else [x] }

  lemma {:induction false} FilterEmpty()
    ensures WithoutApk([]) == []
  {
  }

  lemma {:induction false} FilterIsPiecewise(a: seq<Artifact>, b: seq<Artifact>)
    ensures WithoutApk(a + b) == WithoutApk(a) + WithoutApk(b)
    ensures forall x :: WithoutApk([x]) == if IsApk(x) then [] else [x]
  {
    hide IsApk, WithoutApk;
    FilterEmpty();
    forall x ensures WithoutApk([x]) == Single(x) {
      FilterSnoc([], x);
      assert [] + [x] == [x] && [] + Single(x) == Single(x);
    }
    if b == [] {
      assert a + b == a && WithoutApk(a) + [] == WithoutApk(a);
    } else {
      var front, last := b[..|b| - 1], b[|b| - 1];
      FilterIsPiecewise(a, front);
      FilterSnoc(a + front, last);
      FilterSnoc(front, last);
      assert a + b == (a + front) + [last] && b == front + [last];
    }
  }

  /** removeAirGappedAPK on the first `n` slots of the slice's own memory: kept artifacts move to the
      front over slots already read, so none is overwritten before it is looked at. Slots from the
      write position on keep what they held. */
  method RemoveApk(items: array<Artifact>, n: nat) returns (kept: nat)
    requires n <= items.Length
    modifies items
    ensures kept <= n && items[..kept] == WithoutApk(old(items[..n]))
    ensures items[kept..] == old(items[kept..])
  {
    hide IsApk, WithoutApk;
    ghost var was := items[..];
    kept := 0;
    FilterEmpty();
    assert was[..0] == [] && items[..0] == [];
    for i := 0 to n
      invariant kept <= i
      invariant items[..kept] == WithoutApk(was[..i])
      invariant items[kept..] == was[kept..]
    {
      var item := items[i];
      assert item == items[kept..][i - kept] == was[kept..][i - kept] == was[i];
      FilterSnoc(was[..i], item);
      assert was[..i + 1] == was[..i] + [item];
      if !IsApk(item) {
        items[kept] := item;
        kept := kept + 1;
        assert items[..kept] == items[..kept - 1] + [item];
        assert items[kept..] == was[kept - 1..][1..];
      }
    }
  }

  const FALLBACK_ERROR: string := "AIR_GAPPED_BUILD_FAILED"

  /** The text the error summary is taken from, in order of preference. */
  function ErrorSource(reported: string, runErr: Option<string>): string {
    if CleanError(reported) != "" then reported
    else if runErr.Some? && CleanError(runErr.value) != "" then runErr.value
    else FALLBACK_ERROR
  }

  datatype Context = Context(serial: string, exportSha256: string, builtAt: int)

  predicate ContextOk(c: Context) {
    TrimSpace(c.serial) != "" && Size(c.serial) <= 128 && IsSha256(c.exportSha256) && c.builtAt > 0
  }

  /** The first error the run produced on its own, before the executor's own report is considered. */
  function FailureText(r: BuildResult, apk: Probe, log: Probe, runErr: Option<string>): Option<string> {
    if runErr.Some? then runErr
    else if TrimSpace(r.error) == "" && Apk(apk, r).Failed? then Some(Apk(apk, r).reason)
    else if TrimSpace(r.logPath) != "" && Log(log, r).Failed? then Some(Log(log, r).reason)
    else None
  }

  predicate BuildFailed(r: BuildResult, apk: Probe, log: Probe, runErr: Option<string>) {
    FailureText(r, apk, log, runErr).Some? || TrimSpace(r.error) != ""
  }

  /** A successful build keeps its APK; every build keeps its log, if it is usable. */
  function Outputs(r: BuildResult, apk: Probe, log: Probe, runErr: Option<string>): seq<Artifact> {
    (if BuildFailed(r, apk, log, runErr) then [] else ApkPart(r, apk, runErr)) + LogPart(r, log)
  }

  method CollectOutputs(r: BuildResult, apk: Probe, log: Probe, runErr: Option<string>)
    returns (failure: Option<string>, failed: bool, outputs: seq<Artifact>)
    ensures failure == FailureText(r, apk, log, runErr) && (failed <==> BuildFailed(r, apk, log, runErr))
    ensures outputs == Outputs(r, apk, log, runErr)
  {
    hide TrimSpace, Apk, Log, WithoutApk, IsApk;
    var slots, count := new Artifact[2], 0;
    failure := runErr;
    if failure.None? && TrimSpace(r.error) == "" {
      match Apk(apk, r)
      case Failed(reason) => failure := Some(reason);
      case Accepted(a) => slots[count], count := a, count + 1;
    }
    assert slots[..count] == ApkPart(r, apk, runErr);
    if TrimSpace(r.logPath) != "" {
      match Log(log, r)
      case Accepted(a) => slots[count], count := a, count + 1;
      case Failed(reason) =>
        if failure.None? {
          failure := Some(reason);
        }
    }
    assert slots[..count] == ApkPart(r, apk, runErr) + LogPart(r, log);
    failed := failure.Some? || TrimSpace(r.error) != "";
    if failed {
      RemovalKeepsLog(r, apk, log, runErr);
      count := RemoveApk(slots, count);
    }
    outputs := slots[..count];
  }

  function ApkPart(r: BuildResult, apk: Probe, runErr: Option<string>): seq<Artifact> {
    if runErr.None? && TrimSpace(r.error) == "" && Apk(apk, r).Accepted? then [Apk(apk, r).artifact] else []
  }

  function LogPart(r: BuildResult, log: Probe): seq<Artifact> {
    if TrimSpace(r.logPath) != "" && Log(log, r).Accepted? then [Log(log, r).artifact] else []
  }

  lemma {:induction false} RemovalKeepsLog(r: BuildResult, apk: Probe, log: Probe, runErr: Option<string>)
    ensures WithoutApk(ApkPart(r, apk, runErr) + LogPart(r, log)) == LogPart(r, log)
  {
    hide TrimSpace, Apk, Log, WithoutApk, IsApk;
    OutputRoles(r, apk, log);
    RemovalDropsApk(ApkPart(r, apk, runErr) + LogPart(r, log));
  }

  lemma {:induction false} OutputRoles(r: BuildResult, apk: Probe, log: Probe)
    ensures Apk(apk, r).Accepted? ==> IsApk(Apk(apk, r).artifact)
    ensures Log(log, r).Accepted? ==> !IsApk(Log(log, r).artifact)
  {
  }

  lemma {:induction false} RemovalDropsApk(items: seq<Artifact>)
    requires |items| <= 2
    ensures |items| == 0 ==> WithoutApk(items) == []
    ensures |items| == 1 ==> WithoutApk(items) == if IsApk(items[0]) then [] else items
    ensures |items| == 2 && IsApk(items[0]) ==> WithoutApk(items) == if IsApk(items[1]) then [] else [items[1]]
  {
    hide IsApk;
    if |items| == 2 {
      assert items == [items[0], items[1]] && items[..1] == [items[0]] && items[..1][..0] == [];
      assert WithoutApk(items[..1]) == if IsApk(items[0]) then [] else [items[0]];
    }
  }

  function ManifestFor(m: TaskManifest, c: Context, status: string, message: Bytes, outputs: seq<Artifact>): ResultManifest {
    ResultManifest(SCHEMA_VERSION, m.packageCode, m.nonce, m.tenantId, m.agentId, c.serial, m.taskId, m.attempt,
                   c.exportSha256, c.builtAt, status, message, outputs)
  }

  /** The error summary of a failed build: the first candidate that anything is left of. */
  method ChooseMessage(reported: string, failure: Option<string>) returns (message: Bytes)
    ensures message == SanitizeError(ErrorSource(reported, failure)) && MessageOk(message)
  {
    hide Encode, CleanError, SanitizeError, MessageOk;
    message := SanitizeError(reported);
    if message == [] && failure.Some? {
      message := SanitizeError(failure.value);
    }
    if message == [] {
      message := Encode(FALLBACK_ERROR);
    }
    MessageIsValid(reported);
    SanitizeKeepsText(reported);
    if failure.Some? {
      MessageIsValid(failure.value);
      SanitizeKeepsText(failure.value);
    }
    FallbackIsValid();
    FallbackIsClean();
  }

  /** The manifest a run signs. */
  function BuiltManifest(m: TaskManifest, c: Context, r: BuildResult, apk: Probe, log: Probe, runErr: Option<string>): ResultManifest {
    var outputs := Outputs(r, apk, log, runErr);
    if BuildFailed(r, apk, log, runErr)
    then ManifestFor(m, c, "FAILED", SanitizeError(ErrorSource(r.error, FailureText(r, apk, log, runErr))), outputs)
    else ManifestFor(m, c, "SUCCESS", [], outputs)
  }

  /** The result names the task it was built for, the agent's certificate and the exported package. */
  predicate NamesItsTask(result: ResultManifest, m: TaskManifest, c: Context) {
    && result.schemaVersion == 1 && result.packageCode == m.packageCode && result.nonce == m.nonce
    && result.tenantId == m.tenantId && result.agentId == m.agentId
    && result.taskId == m.taskId && result.attempt == m.attempt
    && result.serial == c.serial && result.exportSha256 == c.exportSha256 && result.builtAt == c.builtAt
  }

  /** A file was found that agrees with what the executor declared, where it declared anything. */
  predicate Usable(p: Probe, declaredSize: int, declaredSha256: string) {
    && p.File? && 0 < p.size <= 3 * 1024 * 1024 * 1024
    && (declaredSize == 0 || p.size == declaredSize) && (declaredSha256 == "" || p.digest == declaredSha256)
  }

  predicate LogUsable(r: BuildResult, log: Probe) { TrimSpace(r.logPath) != "" && Usable(log, r.logSize, r.logSha256) }

  /** The run went wrong, reported an error, or left an output it named unusable. */
  predicate RunFails(r: BuildResult, apk: Probe, log: Probe, runErr: Option<string>) {
    || runErr.Some? || TrimSpace(r.error) != "" || !Usable(apk, r.apkSize, r.apkSha256)
    || (TrimSpace(r.logPath) != "" && !LogUsable(r, log))
  }

  /** The declared output is the very file that was found. */
  predicate Declares(a: Artifact, role: string, path: string, p: Probe) {
    p.File? && a.role == role && a.path == path && a.sizeBytes == p.size && a.sha256 == p.digest
  }

  predicate DeclaresApk(a: Artifact, p: Probe) {
    && Declares(a, "built_apk", "outputs/built.apk", p)
    && a.originalName == "built.apk" && a.contentType == "application/vnd.android.package-archive"
  }

  predicate DeclaresLog(a: Artifact, p: Probe) {
    && Declares(a, "build_log", "outputs/build.log", p)
    && a.originalName == "build.log" && a.contentType == "text/plain; charset=utf-8"
  }

  /** The APK of a run that did not fail, followed by the log of any run that left a usable one. */
  predicate DeclaresOutputs(outputs: seq<Artifact>, r: BuildResult, apk: Probe, log: Probe, runErr: Option<string>) {
    var apks := if RunFails(r, apk, log, runErr) then 0 else 1;
    var logs := if LogUsable(r, log) then 1 else 0;
    && |outputs| == apks + logs
    && (apks == 1 ==> DeclaresApk(outputs[0], apk))
    && (logs == 1 ==> DeclaresLog(outputs[apks], log))
  }

  /** Why an unusable output is refused: what hashing found, or that it is not what was declared. */
  predicate Refuses(p: Probe, text: string) {
    if p.Unusable? then text == p.reason else text == "local executor output integrity is invalid"
  }

  /** `text` tells what went wrong apart from the executor's own report: the run's error, or else
      what is wrong with the APK, or else with the log. */
  predicate Explains(text: string, r: BuildResult, apk: Probe, log: Probe, runErr: Option<string>) {
    if runErr.Some? then text == runErr.value
    else if TrimSpace(r.error) == "" && !Usable(apk, r.apkSize, r.apkSha256) then Refuses(apk, text)
    else TrimSpace(r.logPath) != "" && !LogUsable(r, log) && Refuses(log, text)
  }

  /** The summary is the executor's report if anything is left of it, or else the explanation if
      anything is left of that, or else a constant. */
  ghost predicate Summarises(message: Bytes, r: BuildResult, apk: Probe, log: Probe, runErr: Option<string>) {
    && (CleanError(r.error) != "" ==> message == SanitizeError(r.error))
    && (CleanError(r.error) == "" ==>
          forall text :: Explains(text, r, apk, log, runErr) ==>
            message == if CleanError(text) != "" then SanitizeError(text) else Encode("AIR_GAPPED_BUILD_FAILED"))
    && (CleanError(r.error) == "" && (forall text :: !Explains(text, r, apk, log, runErr)) ==>
          message == Encode("AIR_GAPPED_BUILD_FAILED"))
  }

  ghost predicate Reports(result: ResultManifest, m: TaskManifest, c: Context, r: BuildResult, apk: Probe, log: Probe, runErr: Option<string>) {
    && NamesItsTask(result, m, c)
    && (result.status == "FAILED" <==> RunFails(r, apk, log, runErr))
    && (result.status == "SUCCESS" <==> !RunFails(r, apk, log, runErr))
    && DeclaresOutputs(result.outputs, r, apk, log, runErr)
    && (if RunFails(r, apk, log, runErr) then Summarises(result.errorMessage, r, apk, log, runErr) else result.errorMessage == [])
  }

  lemma {:induction false} FailureIsExplained(r: BuildResult, apk: Probe, log: Probe, runErr: Option<string>)
    ensures FailureText(r, apk, log, runErr).None? ==> forall text :: !Explains(text, r, apk, log, runErr)
    ensures FailureText(r, apk, log, runErr).Some? ==>
              forall text :: Explains(text, r, apk, log, runErr) <==> text == FailureText(r, apk, log, runErr).value
  {
    hide TrimSpace;
  }

  lemma {:induction false} SourceSummarises(r: BuildResult, apk: Probe, log: Probe, runErr: Option<string>)
    ensures Summarises(SanitizeError(ErrorSource(r.error, FailureText(r, apk, log, runErr))), r, apk, log, runErr)
  {
    hide CleanError, SanitizeError, Encode, Explains, FailureText;
    FailureIsExplained(r, apk, log, runErr);
    FallbackIsClean();
    var failure := FailureText(r, apk, log, runErr);
    if CleanError(r.error) == "" {
      assert ErrorSource(r.error, failure) == if failure.Some? && CleanError(failure.value) != "" then failure.value else FALLBACK_ERROR;
      if failure.Some? {
        assert Explains(failure.value, r, apk, log, runErr);
      }
    }
  }

  lemma {:induction false} UsableIsAccepted(r: BuildResult, apk: Probe, log: Probe)
    ensures Apk(apk, r).Accepted? <==> Usable(apk, r.apkSize, r.apkSha256)
    ensures Log(log, r).Accepted? <==> Usable(log, r.logSize, r.logSha256)
    ensures Apk(apk, r).Accepted? ==> DeclaresApk(Apk(apk, r).artifact, apk)
    ensures Log(log, r).Accepted? ==> DeclaresLog(Log(log, r).artifact, log)
  {
  }

  /** The manifest of every outcome, read field by field. */
  lemma {:induction false} ManifestReports(m: TaskManifest, c: Context, r: BuildResult, apk: Probe, log: Probe, runErr: Option<string>)
    ensures Reports(BuiltManifest(m, c, r, apk, log, runErr), m, c, r, apk, log, runErr)
  {
    hide TrimSpace, Apk, Log, Usable, DeclaresApk, DeclaresLog, SanitizeError, ErrorSource, Summarises;
    SourceSummarises(r, apk, log, runErr);
    UsableIsAccepted(r, apk, log);
    assert "FAILED" != "SUCCESS" by { assert "FAILED"[0] != "SUCCESS"[0]; }
  }

  /** The manifest half of createAirGappedResultEnvelope. For every executor outcome the manifest
      passes the validator: status, error text and outputs always agree. */
  method CreateResultManifest(m: TaskManifest, c: Context, r: BuildResult, apk: Probe, log: Probe,
                              runErr: Option<string>, lib: Library) returns (result: ResultManifest)
    requires TaskManifestOk(m, lib) && ContextOk(c) && ProbeSound(apk) && ProbeSound(log)
    ensures result == BuiltManifest(m, c, r, apk, log, runErr)
    ensures ResultManifestOk(result) && Reports(result, m, c, r, apk, log, runErr)
    ensures BuildFailed(r, apk, log, runErr) || (Apk(apk, r).Accepted? && [Apk(apk, r).artifact] <= result.outputs)
  {
    hide TrimSpace, ResultManifestOk, TaskManifestOk, ContextOk, ProbeSound, SanitizeError, ErrorSource, MessageOk, Apk, Log, FailureText, Reports;
    ManifestReports(m, c, r, apk, log, runErr);
    var failure, failed, outputs := CollectOutputs(r, apk, log, runErr);
    if !failed {
      ProbesAccepted(r, apk, log, runErr);
      result := ManifestFor(m, c, "SUCCESS", [], outputs);
      SuccessIsValid(m, c, r, apk, log, outputs, lib);
      return;
    }
    var message := ChooseMessage(r.error, failure);
    result := ManifestFor(m, c, "FAILED", message, outputs);
    FailureIsValid(m, c, r, log, message, outputs, lib);
  }

  lemma {:induction false} ProbesAccepted(r: BuildResult, apk: Probe, log: Probe, runErr: Option<string>)
    ensures BuildFailed(r, apk, log, runErr) || (Apk(apk, r).Accepted? && ApkPart(r, apk, runErr) == [Apk(apk, r).artifact])
  {
    hide TrimSpace, Log;
  }

  lemma {:induction false} SanitizeKeepsText(s: string)
    ensures CleanError(s) == "" <==> SanitizeError(s) == []
  {
    if CleanError(s) != "" {
      assert Encode(CleanError(s)) == EncodeChar(CleanError(s)[0]) + Encode(CleanError(s)[1..]);
    }
  }

  lemma {:induction false} StripKeeps(s: string)
    requires '\0' !in s && '\r' !in s
    ensures Strip(s) == s
  {
    if s != "" {
      StripKeeps(s[1..]);
      assert s == [s[0]] + s[1..];
    }
  }

  lemma {:induction false} CleanErrorKeeps(s: string)
    requires '\0' !in s && '\r' !in s && s != "" && !IsSpace(s[0]) && !IsSpace(s[|s| - 1])
    ensures CleanError(s) == s
  {
    hide IsSpace;
    StripKeeps(s);
  }

  lemma {:induction false} CapitalsAreClean(s: string)
    requires Capitals(s) && |s| <= 2000
    ensures CleanError(s) == s && SanitizeError(s) == Encode(s)
  {
    hide Encode, Size, Strip, TrimSpace;
    AsciiSize(s);
    CleanErrorKeeps(s);
  }

  lemma {:induction false} FallbackIsClean()
    ensures SanitizeError(FALLBACK_ERROR) == Encode(FALLBACK_ERROR) && CleanError(FALLBACK_ERROR) == FALLBACK_ERROR
  {
    hide CleanError, Encode, SanitizeError;
    CapitalsAreClean(FALLBACK_ERROR);
  }

  ghost predicate LogOutput(r: BuildResult, log: Probe, outputs: seq<Artifact>) {
    outputs == [] || (Log(log, r).Accepted? && outputs == [Log(log, r).artifact])
  }

  lemma {:induction false} MessageIsValid(s: string)
    ensures MessageOk(SanitizeError(s)) || SanitizeError(s) == []
  {
    hide BlankBytes, SanitizeError;
    SanitizedErrorIsValid(s);
  }

  predicate Capitals(s: string) {
    s != "" && forall i :: 0 <= i < |s| ==> 'A' <= s[i] <= 'Z' || s[i] == '_'
  }

  lemma {:induction false} CapitalsAreValid(s: string)
    requires Capitals(s) && |s| <= 2000
    ensures MessageOk(Encode(s))
  {
    hide BlankBytes, Encode, Size;
    AsciiSize(s);
    NonblankStart(s);
    ByteOrigin(s, '\0');
    ByteOrigin(s, '\r');
  }

  lemma {:induction false} FallbackIsValid()
    ensures MessageOk(Encode(FALLBACK_ERROR))
  {
    hide MessageOk, Encode;
    CapitalsAreValid(FALLBACK_ERROR);
  }

  predicate MessageOk(b: Bytes) {
    |b| <= 2000 && 0x00 !in b && 0x0D !in b && !BlankBytes(b)
  }

  /** Letters, digits and a few separators: nothing that trimming, paths or names object to. */
  predicate Tame(s: string) {
    s != "" && forall i :: 0 <= i < |s| ==> 'a' <= s[i] <= 'z' || s[i] == '_' || s[i] == '.' || s[i] == '/'
  }

  lemma {:induction false} TameFacts(s: string)
    requires Tame(s)
    ensures TrimSpace(s) == s && Size(s) == |s|
    ensures !ContainsAny(s, "\\\r\n\0")
    ensures '/' !in s ==> !ContainsAny(s, "/\\\r\n\0")
  {
    AsciiSize(s);
    assert forall i :: 0 <= i < |s| ==> !IsSpace(s[i]);
  }

  lemma {:induction false} NoDotDot(s: string)
    requires forall i :: 0 <= i < |s| - 1 ==> s[i] != '.' || s[i + 1] != '.'
    ensures !Contains(s, "..")
  {
    forall i | 0 <= i <= |s| ensures !(".." <= s[i..]) {
      if i + 1 < |s| {
        assert s[i..][0] == s[i] && s[i..][1] == s[i + 1];
        assert ".."[0] == '.' && ".."[1] == '.';
      }
    }
  }

  predicate ConstantsOk(role: string, path: string, name: string, contentType: string) {
    && Tame(role) && Tame(path) && Tame(name) && '/' !in name && |role| <= 64 && |name| <= 255
    && Ascii(contentType) && |contentType| <= 255
    && HasPrefix(path, OUTPUTS)
    && forall i :: 0 <= i < |path| - 1 ==> path[i] != '.' || path[i + 1] != '.'
  }

  lemma {:induction false} ConstantOutputIsOk(role: string, path: string, name: string, contentType: string, size: Int64, digest: string)
    requires ConstantsOk(role, path, name, contentType) && size > 0 && IsSha256(digest)
    ensures ArtifactOk(Artifact(role, path, 0, 0, name, contentType, size, digest), OUTPUTS)
  {
    hide TrimSpace, IsSha256, Size, Contains, ContainsAny;
    TameFacts(role);
    TameFacts(path);
    TameFacts(name);
    NoDotDot(path);
    AsciiSize(contentType);
  }

  lemma {:induction false} ApkConstants()
    ensures ConstantsOk("built_apk", "outputs/built.apk", "built.apk", "application/vnd.android.package-archive")
  {
  }

  lemma {:induction false} LogConstants()
    ensures ConstantsOk("build_log", "outputs/build.log", "build.log", "text/plain; charset=utf-8")
  {
  }

  lemma {:induction false} ApkIsOk(r: BuildResult, p: Probe)
    requires ProbeSound(p) && Apk(p, r).Accepted?
    ensures ArtifactOk(Apk(p, r).artifact, OUTPUTS) && OutputPathOk(Apk(p, r).artifact)
  {
    hide IsSha256, ArtifactOk, ConstantsOk;
    ApkConstants();
    ConstantOutputIsOk("built_apk", "outputs/built.apk", "built.apk", "application/vnd.android.package-archive", p.size, p.digest);
  }

  lemma {:induction false} LogIsOk(r: BuildResult, p: Probe)
    requires ProbeSound(p) && Log(p, r).Accepted?
    ensures ArtifactOk(Log(p, r).artifact, OUTPUTS) && OutputPathOk(Log(p, r).artifact)
  {
    hide IsSha256, ArtifactOk, ConstantsOk;
    LogConstants();
    ConstantOutputIsOk("build_log", "outputs/build.log", "build.log", "text/plain; charset=utf-8", p.size, p.digest);
  }

  lemma {:induction false} IdentityIsOk(m: TaskManifest, c: Context, status: string, message: Bytes, outputs: seq<Artifact>, lib: Library)
    requires TaskManifestOk(m, lib) && ContextOk(c)
    requires |message| <= 2000 && 0x00 !in message && 0x0D !in message
    ensures ResultIdentityOk(ManifestFor(m, c, status, message, outputs))
  {
    hide IsSha256, TrimSpace, Size, IsIdentifier, ArtifactsOk;
  }

  predicate OutputsOk(outputs: seq<Artifact>) {
    ArtifactsOk(outputs, OUTPUTS, false) && forall i :: 0 <= i < |outputs| ==> OutputPathOk(outputs[i])
  }

  lemma {:induction false} NoOutputs()
    ensures OutputsOk([]) && Count([], "built_apk") == 0 && Count([], "build_log") == 0
  {
  }

  lemma {:induction false} OneOutput(a: Artifact)
    requires ArtifactOk(a, OUTPUTS) && OutputPathOk(a)
    ensures OutputsOk([a])
    ensures Count([a], a.role) == 1 && forall r: string :: r != a.role ==> Count([a], r) == 0
  {
    hide ArtifactOk, TrimSpace, OutputPathOk;
    assert [a][..0] == [];
  }

  lemma {:induction false} TwoOutputs(a: Artifact, b: Artifact)
    requires ArtifactOk(a, OUTPUTS) && OutputPathOk(a) && ArtifactOk(b, OUTPUTS) && OutputPathOk(b)
    requires a.path != b.path && RoleOf(a) != RoleOf(b) && a.role != b.role
    ensures OutputsOk([a, b])
    ensures Count([a, b], a.role) == 1 && Count([a, b], b.role) == 1
  {
    hide ArtifactOk, RoleOf, OutputPathOk;
    OneOutput(a);
    assert [a, b][..1] == [a];
  }

  lemma {:induction false} LiteralsDiffer()
    ensures "built_apk" != "build_log" && "outputs/built.apk" != "outputs/build.log"
  {
    assert "built_apk"[4] == 't' && "build_log"[4] == 'd';
    assert "outputs/built.apk"[12] == 't' && "outputs/build.log"[12] == 'd';
  }

  lemma {:induction false} ApkAndLogDiffer(r: BuildResult, apk: Probe, log: Probe)
    requires Apk(apk, r).Accepted? && Log(log, r).Accepted?
    ensures Apk(apk, r).artifact.path != Log(log, r).artifact.path
    ensures RoleOf(Apk(apk, r).artifact) != RoleOf(Log(log, r).artifact)
    ensures Apk(apk, r).artifact.role == "built_apk" != "build_log" == Log(log, r).artifact.role
  {
    hide TrimSpace, ContainsAny, Size, Tame;
    LiteralsDiffer();
    ApkConstants();
    LogConstants();
    TameFacts("built_apk");
    TameFacts("build_log");
  }

  lemma {:induction false} SuccessIsValid(m: TaskManifest, c: Context, r: BuildResult, apk: Probe, log: Probe, outputs: seq<Artifact>, lib: Library)
    requires TaskManifestOk(m, lib) && ContextOk(c) && ProbeSound(apk) && ProbeSound(log)
    requires Apk(apk, r).Accepted? && |outputs| >= 1 && outputs[0] == Apk(apk, r).artifact && LogOutput(r, log, outputs[1..])
    ensures ResultManifestOk(ManifestFor(m, c, "SUCCESS", [], outputs))
  {
    hide TaskManifestOk, ContextOk, ProbeSound, ArtifactOk, TrimSpace, OutputPathOk, ResultIdentityOk, Apk, Log, RoleOf, ArtifactsOk, BlankBytes;
    IdentityIsOk(m, c, "SUCCESS", [], outputs, lib);
    ApkIsOk(r, apk);
    OutputRoleNames(r, apk, log);
    var a := outputs[0];
    if outputs[1..] == [] {
      assert outputs == [a];
      OneOutput(a);
    } else {
      LogIsOk(r, log);
      ApkAndLogDiffer(r, apk, log);
      assert outputs == [a] + outputs[1..] == [a, Log(log, r).artifact];
      TwoOutputs(a, Log(log, r).artifact);
    }
  }

  lemma {:induction false} OutputRoleNames(r: BuildResult, apk: Probe, log: Probe)
    ensures Apk(apk, r).Accepted? ==> Apk(apk, r).artifact.role == "built_apk"
    ensures Log(log, r).Accepted? ==> Log(log, r).artifact.role == "build_log"
    ensures "built_apk" != "build_log" && "SUCCESS" != "FAILED"
  {
    assert "built_apk"[4] == 't' && "build_log"[4] == 'd';
  }

  lemma {:induction false} FailureIsValid(m: TaskManifest, c: Context, r: BuildResult, log: Probe, message: Bytes, outputs: seq<Artifact>, lib: Library)
    requires TaskManifestOk(m, lib) && ContextOk(c) && ProbeSound(log)
    requires MessageOk(message) && LogOutput(r, log, outputs)
    ensures ResultManifestOk(ManifestFor(m, c, "FAILED", message, outputs))
  {
    hide TaskManifestOk, ContextOk, ProbeSound, ArtifactOk, TrimSpace, OutputPathOk, ResultIdentityOk, Log, RoleOf, ArtifactsOk, BlankBytes;
    IdentityIsOk(m, c, "FAILED", message, outputs, lib);
    OutputRoleNames(r, Unusable(""), log);
    if outputs == [] {
      NoOutputs();
    } else {
      LogIsOk(r, log);
      OneOutput(outputs[0]);
    }
  }

  // -------------------------------------------------------------- the envelope

  /** What encoding/json does to a result: valid text comes back as it was, while invalid UTF-8
      is written as an escaped replacement character and so never encodes back to the same bytes. */
  ghost predicate JsonFaithful(lib: Library) {
    forall e: ResultEnvelope ::
      var back := lib.decodeResult(lib.encodeResult(e));
      if Valid(e.manifest.errorMessage) then back == Some(e)
      else back.Some? && lib.encodeResult(back.value) != lib.encodeResult(e)
  }

  predicate SealOk(pem: string, signature: Signature, lib: Library) {
    TrimSpace(pem) != "" && Size(pem) <= 32 * 1024 && SignatureOk(signature, lib)
  }

  function Envelope(m: ResultManifest, pem: string, sign: ResultManifest -> Signature): ResultEnvelope {
    ResultEnvelope(m, pem, sign(m))
  }

  /** The whole of createAirGappedResultEnvelope, whose last act is to decode its own encoding. An
      envelope comes out exactly when it fits and the byte cut of the error text splits no rune. */
  method CreateResultEnvelope(m: TaskManifest, c: Context, r: BuildResult, apk: Probe, log: Probe, runErr: Option<string>,
                              pem: string, sign: ResultManifest -> Signature, lib: Library) returns (result: Option<ResultEnvelope>)
    requires TaskManifestOk(m, lib) && ContextOk(c) && ProbeSound(apk) && ProbeSound(log)
    requires (forall x :: SealOk(pem, sign(x), lib)) && JsonFaithful(lib)
    ensures var built := Envelope(BuiltManifest(m, c, r, apk, log, runErr), pem, sign);
            && (result.Some? ==> result.value == built && Reports(result.value.manifest, m, c, r, apk, log, runErr))
            && (result.Some? ==> result.value.certificatePem == pem && result.value.signature == sign(result.value.manifest))
            && (result.Some? <==>
                  && SizeOk(lib.encodeResult(built))
                  && (!BuildFailed(r, apk, log, runErr) || CutsBetweenRunes(ErrorSource(r.error, FailureText(r, apk, log, runErr)))))
  {
    hide TrimSpace, Encode, Valid, ResultManifestOk, TaskManifestOk, ContextOk, ProbeSound, SealOk, SanitizeError, CutsBetweenRunes,
         FailureText, ErrorSource, BuildFailed, JsonFaithful, Reports;
    var manifest := CreateResultManifest(m, c, r, apk, log, runErr, lib);
    var envelope := Envelope(manifest, pem, sign);
    SanitizedIsValidUtf8(ErrorSource(r.error, FailureText(r, apk, log, runErr)));
    EmptyIsValid();
    var encoded := lib.encodeResult(envelope);
    if SizeOk(encoded) {
      SelfCheck(envelope, lib);
      if DecodeResultEnvelope(encoded, lib).Some? {
        return Some(envelope);
      }
    }
    return None;
  }

  lemma {:induction false} EmptyIsValid()
    ensures Valid([])
  {
  }

  lemma {:induction false} SelfCheck(e: ResultEnvelope, lib: Library)
    requires JsonFaithful(lib) && ResultManifestOk(e.manifest) && SealOk(e.certificatePem, e.signature, lib)
    requires SizeOk(lib.encodeResult(e))
    ensures DecodeResultEnvelope(lib.encodeResult(e), lib).Some? <==> Valid(e.manifest.errorMessage)
  {
    hide Valid, ResultManifestOk, TrimSpace, Size, SignatureOk;
  }

  /** The failing family is not empty: a two-byte rune across byte 2000 and no result is written. */
  lemma {:induction false} CutThroughRune(s: string)
    requires |s| == 2000 && s[1999] == '\U{E9}' && forall i :: 0 <= i < 1999 ==> s[i] == 'a'
    ensures !CutsBetweenRunes(s) && !Valid(SanitizeError(s))
  {
    hide Size, Strip, IsSpace, Valid, SanitizeError, TrimSpace, CleanError;
    assert !IsSpace('\U{E9}') && !IsSpace('a') by { NotSpaces(); }
    CleanErrorKeeps(s);
    forall k | 0 <= k <= 2000 ensures Size(s[..k]) != 2000 && (k == 2000 ==> Size(s[..k]) == 2001) {
      PrefixSizes(s, k);
    }
    assert s[..2000] == s;
    SanitizedIsValidUtf8(s);
  }

  lemma {:induction false} NotSpaces()
    ensures !IsSpace('\U{E9}') && !IsSpace('a')
  {
  }

  lemma {:induction false} PrefixSizes(s: string, k: nat)
    requires |s| == 2000 && s[1999] == '\U{E9}' && (forall i :: 0 <= i < 1999 ==> s[i] == 'a') && k <= 2000
    ensures Size(s[..k]) == if k == 2000 then 2001 else k
  {
    if k == 2000 {
      AsciiSize(s[..1999]);
      SizeConcat(s[..1999], s[1999..]);
      assert s[..2000] == s[..1999] + s[1999..];
      assert s[1999..][1..] == "";
    } else {
      AsciiSize(s[..k]);
    }
  }

  lemma {:induction false} SizeConcat(a: string, b: string)
    ensures Size(a + b) == Size(a) + Size(b)
  {
    hide Encode;
    EncodeConcat(a, b);
    SizeIsByteCount(a);
    SizeIsByteCount(b);
    SizeIsByteCount(a + b);
  }
}
