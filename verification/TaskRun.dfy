/** One claimed task on the local agent: executeTask and the reports it sends, for every outcome
    of its environment. */
module TaskRun {
  import opened Text
  import opened Utf8
  import opened CustomerObjects
  import opened TaskInputs

  const PROTOCOL_VERSION := 3

  datatype Output = Output(role: string, uploadPath: string)

  datatype Bundle = Bundle(schemaVersion: int, blockedReason: string, inputs: seq<Input>, outputs: seq<Output>)

  datatype BuildResult = BuildResult(
    apkPath: string, apkReference: string, apkSha256: string, apkSize: int,
    logPath: string, logReference: string, logSha256: string, logSize: int, error: string)

  /** What is known of an uploaded file. */
  datatype Upload = Upload(reference: string, sha256: string, size: int)

  /** The control plane's answer to one upload; `Garbled` covers every answer that cannot be used. */
  datatype Reply = Garbled | Reply(upload: Upload)

  /** The executor: how it ended, the result file it left, a digest of its output if it wrote any,
      and the non-empty private regular files it left under the work directory. */
  datatype Execution = Execution(runErr: Option<string>, result: BuildResult, outputDigest: Option<string>, produced: map<string, Bytes>)

  /** The points at which a fresh ticket bundle is asked for. */
  datatype Moment = AfterDownload | AfterBuild | DuringUpload(role: Role)

  datatype Put = Put(stored: bool, reading: Reading)

  /** Every answer the environment may give; each request of a run has an answer of its own. A request
      or an executor cut short by cancellation is one that fails. */
  datatype Env = Env(
    mode: int, storageRef: string, registeredRef: string, owner: Owner,
    secretOk: bool, workDirOk: bool, storeOk: bool, taskFileOk: bool,
    fetch: (nat, nat, string) -> Response,
    store: (nat, string) -> Reading,
    refresh: Moment -> Option<Bundle>,
    execution: Execution,
    upload: (Role, nat, string) -> Reply,
    put: (Role, string) -> Put,
    posted: Report -> bool)

  datatype Log = Log(reference: string, sha256: string, size: int)

  datatype Report =
    | Fail(message: Bytes, log: Option<Log>)
    | Complete(apk: Upload, buildLog: Log)

  datatype Event = Handed(inputs: seq<Input>, files: map<string, Bytes>) | Progress | Reported(report: Report)

  // ------------------------------------------------------------------- messages

  const MAX_MESSAGE_BYTES := 1900

  /** truncateAgentMessage */
  function Truncated(text: string): Bytes {
    var b := Encode(TrimSpace(text));
    if |b| > MAX_MESSAGE_BYTES then b[..MAX_MESSAGE_BYTES]
    else if b == [] then Encode("LOCAL_EXECUTOR_FAILED") else b
  }

  /** postTaskFailure without a result. */
  function Failure(text: string): Report { Fail(Truncated(text), None) }

  /** The failures that are posted without truncation. */
  function PlainFailure(text: string): Report { Fail(Encode(text), None) }

  function FailureText(e: Execution): string {
    var text := if e.result.error != "" then e.result.error else if e.runErr.Some? then e.runErr.value else "";
    if e.outputDigest.Some? then text + "; executor output sha256=" + e.outputDigest.value else text
  }

  predicate Blank(s: string) { TrimSpace(s) == "" }

  // -------------------------------------------------------------------- uploads

  function RoleName(role: Role): string { if role == BuiltApk then "built_apk" else "build_log" }

  function Ticket(outputs: seq<Output>, role: Role): Option<Output> {
    if outputs == [] then None
    else if outputs[0].role == RoleName(role) then Some(outputs[0]) else Ticket(outputs[1..], role)
  }

  /** The local file's own measure. */
  predicate Measures(u: Upload, file: Bytes, hash: Bytes -> string) { u.size == |file| && u.sha256 == hash(file) }

  /** uploadArtifactOutput: the answer counts only if it confirms the local size and digest. */
  function UploadOnce(outputs: seq<Output>, role: Role, attempt: nat, path: string, env: Env, lib: Library): Option<Upload> {
    var ticket := Ticket(outputs, role);
    if ticket.None? || !OnRoute(ticket.value.uploadPath, UPLOAD_ROUTE, lib) || path !in env.execution.produced then None
    else
      var reply := env.upload(role, attempt, ticket.value.uploadPath);
      if reply.Reply? && reply.upload.reference != "" && Measures(reply.upload, env.execution.produced[path], lib.hash)
      then Some(reply.upload) else None
  }

  /** uploadArtifactOutputWithRefresh: one retry, with fresh tickets. */
  function UploadTwice(outputs: seq<Output>, role: Role, path: string, env: Env, lib: Library): (Option<Upload>, seq<Output>) {
    var first := UploadOnce(outputs, role, 1, path, env, lib);
    if first.Some? then (first, outputs)
    else
      var renewed := Refreshed(env, DuringUpload(role));
      if renewed.None? then (None, outputs)
      else (UploadOnce(renewed.value.outputs, role, 2, path, env, lib), renewed.value.outputs)
  }

  /** refreshArtifactBundle */
  function Refreshed(env: Env, moment: Moment): Option<Bundle> {
    var b := env.refresh(moment);
    if b.Some? && b.value.schemaVersion == PROTOCOL_VERSION then b else None
  }

  /** uploadCustomerArtifactOutput: put, then read back and compare with the local file. */
  function UploadToCustomer(task: Task, role: Role, path: string, env: Env, lib: Library): Option<Upload> {
    var key := OutputKey(env.owner.prefix, task, role);
    if path !in env.execution.produced || key.None? then None
    else
      var file := env.execution.produced[path];
      var put := env.put(role, key.value);
      if !put.stored || !Holds(put.reading, |file|, lib.hash(file), lib.hash) then None
      else
        var reference := ReferenceTo(env.owner.agentId, key.value);
        if reference.None? then None else Some(Upload(reference.value, lib.hash(file), |file|))
  }

  // --------------------------------------------------------------------- stages

  /** What the executor is given, or the failure that stops the run before it. */
  datatype Fetched = Unfetched(message: string) | Fetched(inputs: seq<Input>, outputs: seq<Output>)

  ghost predicate Downloaded(inputs: seq<Input>, pass: nat, env: Env, lib: Library) {
    AllFetched(inputs, Answers(env, pass), lib)
  }

  function Answers(env: Env, pass: nat): (nat, string) -> Response {
    (i: nat, path: string) => env.fetch(pass, i, path)
  }

  ghost function FetchStage(bundle: Bundle, env: Env, lib: Library): Fetched {
    if env.mode == 1 then
      if Downloaded(bundle.inputs, 1, env, lib) then Fetched(Placed(bundle.inputs, |bundle.inputs|), bundle.outputs)
      else
        var b := Refreshed(env, AfterDownload);
        if b.None? then Unfetched("LOCAL_ARTIFACT_INPUT_DOWNLOAD_FAILED")
        else if Downloaded(b.value.inputs, 2, env, lib) then Fetched(Placed(b.value.inputs, |b.value.inputs|), b.value.outputs)
        else Unfetched("LOCAL_ARTIFACT_INPUT_INTEGRITY_FAILED")
    else if env.mode == 2 then
      if Blank(env.storageRef) || env.storageRef != env.registeredRef then Unfetched("LOCAL_CUSTOMER_STORAGE_REFERENCE_MISMATCH")
      else if !env.storeOk then Unfetched("LOCAL_CUSTOMER_STORAGE_SECRET_RESOLUTION_FAILED")
      else if AllCopied(bundle.inputs, env.owner, env.store, lib) then Fetched(Placed(bundle.inputs, |bundle.inputs|), bundle.outputs)
      else Unfetched("LOCAL_CUSTOMER_STORAGE_INPUT_INTEGRITY_FAILED")
    else Unfetched("LOCAL_ARTIFACT_MODE_UNSUPPORTED")
  }

  function ClaimedLog(r: BuildResult): Log { Log(r.logReference, r.logSha256, r.logSize) }

  function LogOf(u: Upload): Log { Log(u.reference, u.sha256, u.size) }

  /** After a failed build the log is uploaded if possible; otherwise the executor's claim is passed on. */
  function FailedBuild(task: Task, outputs: seq<Output>, env: Env, lib: Library): Report {
    var r := env.execution.result;
    var uploaded :=
      if Blank(r.logPath) then None
      else if env.mode == 1 then
        var b := Refreshed(env, AfterBuild);
        if b.None? then None else UploadTwice(b.value.outputs, BuildLog, r.logPath, env, lib).0
      else UploadToCustomer(task, BuildLog, r.logPath, env, lib);
    Fail(Truncated(FailureText(env.execution)), Some(if uploaded.Some? then LogOf(uploaded.value) else ClaimedLog(r)))
  }

  function Finished(apk: Upload, log: Log): Report {
    if Blank(apk.reference) then PlainFailure("LOCAL_ARTIFACT_UPLOAD_REQUIRED") else Complete(apk, log)
  }

  function PublishThroughControlPlane(env: Env, lib: Library): Report {
    var r := env.execution.result;
    var b := Refreshed(env, AfterBuild);
    if b.None? then Failure("LOCAL_ARTIFACT_TICKET_REFRESH_FAILED")
    else if Blank(r.apkPath) then Failure("LOCAL_ARTIFACT_OUTPUT_PATH_REQUIRED")
    else
      var apk := UploadTwice(b.value.outputs, BuiltApk, r.apkPath, env, lib);
      if apk.0.None? then Failure("LOCAL_ARTIFACT_APK_UPLOAD_FAILED")
      else if Blank(r.logPath) then Finished(apk.0.value, ClaimedLog(r))
      else
        var log := UploadTwice(apk.1, BuildLog, r.logPath, env, lib).0;
        if log.None? then Failure("LOCAL_ARTIFACT_LOG_UPLOAD_FAILED") else Finished(apk.0.value, LogOf(log.value))
  }

  function PublishToCustomer(task: Task, env: Env, lib: Library): Report {
    var r := env.execution.result;
    if Blank(r.apkPath) then Failure("LOCAL_CUSTOMER_STORAGE_OUTPUT_PATH_REQUIRED")
    else
      var apk := UploadToCustomer(task, BuiltApk, r.apkPath, env, lib);
      if apk.None? then Failure("LOCAL_CUSTOMER_STORAGE_APK_UPLOAD_FAILED")
      else if Blank(r.logPath) then Finished(apk.value, ClaimedLog(r))
      else
        var log := UploadToCustomer(task, BuildLog, r.logPath, env, lib);
        if log.None? then Failure("LOCAL_CUSTOMER_STORAGE_LOG_UPLOAD_FAILED") else Finished(apk.value, LogOf(log.value))
  }

  predicate BuildClean(e: Execution) { e.runErr.None? && e.result.error == "" }

  /** The one terminal report of a run, if it sends any. */
  ghost function Verdict(task: Task, bundle: Option<Bundle>, env: Env, lib: Library): Option<Report> {
    if bundle.None? || bundle.value.schemaVersion != PROTOCOL_VERSION then Some(PlainFailure("LOCAL_TASK_BUNDLE_REQUIRED"))
    else if bundle.value.blockedReason != "" then Some(PlainFailure(bundle.value.blockedReason))
    else if !env.secretOk then Some(PlainFailure("LOCAL_SIGNING_SECRET_RESOLUTION_FAILED"))
    else if !env.workDirOk then None
    else
      var f := FetchStage(bundle.value, env, lib);
      if f.Unfetched? then Some(Failure(f.message))
      else if !env.taskFileOk then None
      else if !BuildClean(env.execution) then Some(FailedBuild(task, f.outputs, env, lib))
      else if env.mode == 1 then Some(PublishThroughControlPlane(env, lib))
      else Some(PublishToCustomer(task, env, lib))
  }

  /** The executor runs: everything before it has gone well. */
  ghost predicate Runs(bundle: Option<Bundle>, env: Env, lib: Library) {
    && bundle.Some? && bundle.value.schemaVersion == 3 && bundle.value.blockedReason == ""
    && env.secretOk && env.workDirOk && FetchStage(bundle.value, env, lib).Fetched? && env.taskFileOk
  }

  /** The copy of an input that is written for the executor. */
  function Cleared(input: Input): Input {
    input.(downloadPath := "", customerReference := "", storageMode := 0, ownerAgentId := 0)
  }

  function ClearedAll(inputs: seq<Input>): (r: seq<Input>)
    ensures |r| == |inputs|
  {
    seq(|inputs|, i requires 0 <= i < |inputs| => Cleared(inputs[i]))
  }

  /** Reports among the events. */
  function Reports(trace: seq<Event>): seq<Report> {
    if trace == [] then []
    else Reports(trace[..|trace| - 1]) + if trace[|trace| - 1].Reported? then [trace[|trace| - 1].report] else []
  }

  lemma {:induction false} ReportsGrow(trace: seq<Event>, e: Event)
    ensures Reports(trace + [e]) == Reports(trace) + if e.Reported? then [e.report] else []
  {
    assert (trace + [e])[..|trace|] == trace;
  }

  /** Every input handed over is in a file of the work directory with its declared size and digest. */
  ghost predicate HandedVerified(trace: seq<Event>, hash: Bytes -> string) {
    forall e :: e in trace && e.Handed? ==>
      e.inputs != [] && forall i :: 0 <= i < |e.inputs| ==> InPlace(e.inputs[i], e.files, hash)
  }

  /** The executor is told what each input is and where it lies, and nothing of where it came from. */
  predicate Told(given: Input, own: Input) {
    && given.role == own.role && given.objectId == own.objectId && given.originalName == own.originalName
    && given.sizeBytes == own.sizeBytes && given.sha256 == own.sha256 && given.localPath == own.localPath
    && given.downloadPath == "" && given.customerReference == "" && given.storageMode == 0 && given.ownerAgentId == 0
  }

  predicate AllTold(given: seq<Input>, own: seq<Input>) {
    |given| == |own| && forall i :: 0 <= i < |own| ==> Told(given[i], own[i])
  }

  // --------------------------------------------------------------------- the agent

  class LocalAgent {
    var trace: seq<Event>
    var outputs: seq<Output>

    constructor ()
      ensures trace == [] && outputs == []
    {
      trace, outputs := [], [];
    }

    method Post(report: Report, env: Env) returns (ok: bool)
      modifies this`trace
      ensures trace == old(trace) + [Reported(report)] && ok == env.posted(report)
    {
      trace := trace + [Reported(report)];
      return env.posted(report);
    }

    method UploadArtifactOutput(role: Role, attempt: nat, path: string, env: Env, lib: Library) returns (u: Option<Upload>)
      ensures u == UploadOnce(outputs, role, attempt, path, env, lib)
    {
      hide OnRoute, RoleName;
      var ticket: Option<Output> := None;
      for index := 0 to |outputs|
        invariant ticket.None? && Ticket(outputs[index..], role) == Ticket(outputs, role)
      {
        assert outputs[index..][0] == outputs[index] && outputs[index..][1..] == outputs[index + 1..];
        if outputs[index].role == RoleName(role) {
          ticket := Some(outputs[index]);
          break;
        }
      }
      if ticket.None? || !OnRoute(ticket.value.uploadPath, UPLOAD_ROUTE, lib) || path !in env.execution.produced {
        return None;
      }
      var file := env.execution.produced[path];
      var size, digest := |file|, lib.hash(file);
      var reply := env.upload(role, attempt, ticket.value.uploadPath);
      if reply.Garbled? || reply.upload.reference == "" || reply.upload.size != size || reply.upload.sha256 != digest {
        return None;
      }
      return Some(reply.upload);
    }

    method UploadArtifactOutputWithRefresh(role: Role, path: string, env: Env, lib: Library) returns (u: Option<Upload>)
      modifies this`outputs
      ensures (u, outputs) == UploadTwice(old(outputs), role, path, env, lib)
    {
      hide UploadOnce;
      u := UploadArtifactOutput(role, 1, path, env, lib);
      if u.Some? {
        return;
      }
      var b := Refreshed(env, DuringUpload(role));
      if b.None? {
        return None;
      }
      outputs := b.value.outputs;
      u := UploadArtifactOutput(role, 2, path, env, lib);
    }

    method UploadCustomerArtifactOutput(task: Task, role: Role, path: string, env: Env, lib: Library) returns (u: Option<Upload>)
      ensures u == UploadToCustomer(task, role, path, env, lib)
    {
      hide OutputKey, ReferenceTo, Holds;
      if path !in env.execution.produced {
        return None;
      }
      var key := OutputKey(env.owner.prefix, task, role);
      if key.None? {
        return None;
      }
      var file := env.execution.produced[path];
      var put := env.put(role, key.value);
      if !put.stored {
        return None;
      }
      if !Holds(put.reading, |file|, lib.hash(file), lib.hash) {
        return None;
      }
      var reference := ReferenceTo(env.owner.agentId, key.value);
      return if reference.None? then None else Some(Upload(reference.value, lib.hash(file), |file|));
    }

    /** The inputs reach the work directory, or the failure to report. */
    method FetchInputs(bundle: Bundle, env: Env, lib: Library) returns (failure: Option<string>, dir: WorkDir)
      requires HexHash(lib.hash)
      modifies this`outputs
      ensures fresh(dir)
      ensures failure == (match FetchStage(bundle, env, lib) case Unfetched(m) => Some(m) case Fetched(_, _) => None)
      ensures failure.None? ==>
                && Fetched(dir.inputs, outputs) == FetchStage(bundle, env, lib) && dir.inputs != []
                && forall i :: 0 <= i < |dir.inputs| ==> InPlace(dir.inputs[i], dir.files, lib.hash)
    {
      hide AllFetched, AllCopied, InPlace, TrimSpace;
      dir := new WorkDir(bundle.inputs);
      outputs := bundle.outputs;
      if env.mode == 1 {
        var first := dir.DownloadArtifactInputs(Answers(env, 1), lib);
        if first {
          NonEmptyFetched(bundle.inputs, 1, env, lib);
          return None, dir;
        }
        var b := Refreshed(env, AfterDownload);
        if b.None? {
          return Some("LOCAL_ARTIFACT_INPUT_DOWNLOAD_FAILED"), dir;
        }
        outputs := b.value.outputs;
        dir.inputs := b.value.inputs;
        var second := dir.DownloadArtifactInputs(Answers(env, 2), lib);
        if second {
          NonEmptyFetched(b.value.inputs, 2, env, lib);
          return None, dir;
        }
        return Some("LOCAL_ARTIFACT_INPUT_INTEGRITY_FAILED"), dir;
      }
      if env.mode == 2 {
        if Blank(env.storageRef) || env.storageRef != env.registeredRef {
          return Some("LOCAL_CUSTOMER_STORAGE_REFERENCE_MISMATCH"), dir;
        }
        if !env.storeOk {
          return Some("LOCAL_CUSTOMER_STORAGE_SECRET_RESOLUTION_FAILED"), dir;
        }
        var copied := dir.DownloadCustomerArtifactInputs(env.owner, env.store, lib);
        if copied {
          NonEmptyCopied(bundle.inputs, env.owner, env.store, lib);
          return None, dir;
        }
        return Some("LOCAL_CUSTOMER_STORAGE_INPUT_INTEGRITY_FAILED"), dir;
      }
      return Some("LOCAL_ARTIFACT_MODE_UNSUPPORTED"), dir;
    }

    method ReportFailedBuild(task: Task, env: Env, lib: Library)
      requires env.mode == 1 || env.mode == 2
      modifies this
      ensures trace == old(trace) + [Reported(FailedBuild(task, old(outputs), env, lib))]
    {
      hide TrimSpace, UploadTwice, UploadToCustomer, Truncated, FailureText;
      var r := env.execution.result;
      var log := ClaimedLog(r);
      if env.mode == 1 && !Blank(r.logPath) {
        var b := Refreshed(env, AfterBuild);
        if b.Some? {
          outputs := b.value.outputs;
          var uploaded := UploadArtifactOutputWithRefresh(BuildLog, r.logPath, env, lib);
          if uploaded.Some? {
            log := LogOf(uploaded.value);
          }
        }
      } else if env.mode == 2 && !Blank(r.logPath) {
        var uploaded := UploadCustomerArtifactOutput(task, BuildLog, r.logPath, env, lib);
        if uploaded.Some? {
          log := LogOf(uploaded.value);
        }
      }
      var _ := Post(Fail(Truncated(FailureText(env.execution)), Some(log)), env);
    }

    /** From a clean build to the terminal report. */
    method PublishResult(task: Task, env: Env, lib: Library) returns (ok: bool)
      requires env.mode == 1 || env.mode == 2
      modifies this
      ensures var report := if env.mode == 1 then PublishThroughControlPlane(env, lib) else PublishToCustomer(task, env, lib);
              trace == old(trace) + [Reported(report)] && (ok <==> report.Complete? && env.posted(report))
    {
      hide TrimSpace, UploadTwice, UploadToCustomer, Truncated, Encode;
      var r := env.execution.result;
      var apk: Option<Upload>;
      var log := ClaimedLog(r);
      if env.mode == 1 {
        var b := Refreshed(env, AfterBuild);
        if b.None? {
          var _ := Post(Failure("LOCAL_ARTIFACT_TICKET_REFRESH_FAILED"), env);
          return false;
        }
        outputs := b.value.outputs;
        if Blank(r.apkPath) {
          var _ := Post(Failure("LOCAL_ARTIFACT_OUTPUT_PATH_REQUIRED"), env);
          return false;
        }
        apk := UploadArtifactOutputWithRefresh(BuiltApk, r.apkPath, env, lib);
        if apk.None? {
          var _ := Post(Failure("LOCAL_ARTIFACT_APK_UPLOAD_FAILED"), env);
          return false;
        }
        if !Blank(r.logPath) {
          var uploaded := UploadArtifactOutputWithRefresh(BuildLog, r.logPath, env, lib);
          if uploaded.None? {
            var _ := Post(Failure("LOCAL_ARTIFACT_LOG_UPLOAD_FAILED"), env);
            return false;
          }
          log := LogOf(uploaded.value);
        }
      } else {
        if Blank(r.apkPath) {
          var _ := Post(Failure("LOCAL_CUSTOMER_STORAGE_OUTPUT_PATH_REQUIRED"), env);
          return false;
        }
        apk := UploadCustomerArtifactOutput(task, BuiltApk, r.apkPath, env, lib);
        if apk.None? {
          var _ := Post(Failure("LOCAL_CUSTOMER_STORAGE_APK_UPLOAD_FAILED"), env);
          return false;
        }
        if !Blank(r.logPath) {
          var uploaded := UploadCustomerArtifactOutput(task, BuildLog, r.logPath, env, lib);
          if uploaded.None? {
            var _ := Post(Failure("LOCAL_CUSTOMER_STORAGE_LOG_UPLOAD_FAILED"), env);
            return false;
          }
          log := LogOf(uploaded.value);
        }
      }
      if Blank(apk.value.reference) {
        var _ := Post(PlainFailure("LOCAL_ARTIFACT_UPLOAD_REQUIRED"), env);
        return false;
      }
      ok := Post(Complete(apk.value, log), env);
    }

    /** executeTask sends exactly its verdict: one terminal report, or none when the work directory
        or the task file cannot be written. Whatever it hands to the executor is verified, and it
        succeeds only if "complete" was sent and taken. */
    method ExecuteTask(task: Task, bundle: Option<Bundle>, env: Env, lib: Library) returns (ok: bool)
      requires HexHash(lib.hash) && trace == []
      modifies this
      ensures Reports(trace) == (match Verdict(task, bundle, env, lib) case None => [] case Some(r) => [r])
      ensures HandedVerified(trace, lib.hash)
      ensures (exists e :: e in trace && e.Handed?) <==> Runs(bundle, env, lib)
      ensures forall e :: e in trace && e.Handed? ==>
                Runs(bundle, env, lib) && AllTold(e.inputs, FetchStage(bundle.value, env, lib).inputs)
      ensures ok <==> Verdict(task, bundle, env, lib).Some? && Verdict(task, bundle, env, lib).value.Complete?
                      && env.posted(Verdict(task, bundle, env, lib).value)
    {
      hide Encode, Truncated, FailedBuild, PublishThroughControlPlane, PublishToCustomer, FetchStage, InPlace, Reports, AllTold;
      NoReports();
      if bundle.None? || bundle.value.schemaVersion != PROTOCOL_VERSION {
        Single(PlainFailure("LOCAL_TASK_BUNDLE_REQUIRED"));
        var _ := Post(PlainFailure("LOCAL_TASK_BUNDLE_REQUIRED"), env);
        return false;
      }
      if bundle.value.blockedReason != "" {
        Single(PlainFailure(bundle.value.blockedReason));
        var _ := Post(PlainFailure(bundle.value.blockedReason), env);
        return false;
      }
      if !env.secretOk {
        Single(PlainFailure("LOCAL_SIGNING_SECRET_RESOLUTION_FAILED"));
        var _ := Post(PlainFailure("LOCAL_SIGNING_SECRET_RESOLUTION_FAILED"), env);
        return false;
      }
      if !env.workDirOk {
        return false;
      }
      var failure, dir := FetchInputs(bundle.value, env, lib);
      if failure.Some? {
        Single(Failure(failure.value));
        var _ := Post(Failure(failure.value), env);
        return false;
      }
      FetchedModes(bundle.value, env, lib);
      var executorInputs := ClearedAll(dir.inputs);
      ClearedInPlace(dir.inputs, dir.files, lib.hash);
      ClearedAreTold(dir.inputs);
      if !env.taskFileOk {
        return false;
      }
      var handed := Handed(executorInputs, dir.files);
      trace := trace + [Progress];
      trace := trace + [handed];
      assert trace == [Progress, handed];
      if !BuildClean(env.execution) {
        ThreeEvents(handed, FailedBuild(task, outputs, env, lib));
        FailedBuildFails(task, outputs, env, lib);
        ReportFailedBuild(task, env, lib);
        return false;
      }
      ThreeEvents(handed, if env.mode == 1 then PublishThroughControlPlane(env, lib) else PublishToCustomer(task, env, lib));
      ok := PublishResult(task, env, lib);
    }
  }

  lemma {:induction false} ClearedAreTold(inputs: seq<Input>)
    ensures AllTold(ClearedAll(inputs), inputs)
  {
  }

  lemma {:induction false} NoReports()
    ensures Reports([]) == []
  {
  }

  lemma {:induction false} Single(report: Report)
    ensures Reports([] + [Reported(report)]) == [report] && [] + [Reported(report)] == [Reported(report)]
  {
    ReportsGrow([], Reported(report));
  }

  lemma {:induction false} ThreeEvents(handed: Event, report: Report)
    requires handed.Handed?
    ensures Reports([Progress, handed] + [Reported(report)]) == [report]
    ensures forall e :: e in [Progress, handed] + [Reported(report)] && e.Handed? ==> e == handed
    ensures handed in [Progress, handed] + [Reported(report)]
  {
    hide Reports;
    var one, two := [Progress], [Progress, handed];
    NoReports();
    ReportsGrow([], Progress);
    assert [] + [Progress] == one;
    ReportsGrow(one, handed);
    assert one + [handed] == two;
    ReportsGrow(two, Reported(report));
    assert two[1] == handed;
  }

  lemma {:induction false} FailedBuildFails(task: Task, outputs: seq<Output>, env: Env, lib: Library)
    ensures FailedBuild(task, outputs, env, lib).Fail?
  {
    hide Truncated, FailureText, TrimSpace, UploadTwice, UploadToCustomer;
  }

  lemma {:induction false} FetchedModes(bundle: Bundle, env: Env, lib: Library)
    ensures FetchStage(bundle, env, lib).Fetched? ==> env.mode == 1 || env.mode == 2
  {
  }

  lemma {:induction false} ClearedInPlace(inputs: seq<Input>, files: map<string, Bytes>, hash: Bytes -> string)
    requires forall i :: 0 <= i < |inputs| ==> InPlace(inputs[i], files, hash)
    ensures forall i :: 0 <= i < |inputs| ==> InPlace(ClearedAll(inputs)[i], files, hash)
  {
    hide Canonical;
    forall i | 0 <= i < |inputs| ensures InPlace(ClearedAll(inputs)[i], files, hash) {
      assert InPlace(inputs[i], files, hash);
    }
  }

  lemma {:induction false} NonEmptyFetched(inputs: seq<Input>, pass: nat, env: Env, lib: Library)
    requires Downloaded(inputs, pass, env, lib)
    ensures inputs != []
  {
  }

  lemma {:induction false} NonEmptyCopied(inputs: seq<Input>, owner: Owner, store: (nat, string) -> Reading, lib: Library)
    requires AllCopied(inputs, owner, store, lib)
    ensures inputs != []
  {
  }

  // ---------------------------------------------------------- what a verdict means

  /** The control plane confirmed the very file the executor left. */
  ghost predicate ConfirmedByControlPlane(u: Upload, role: Role, path: string, env: Env, lib: Library) {
    && path in env.execution.produced && Measures(u, env.execution.produced[path], lib.hash)
    && exists attempt: nat, upload: string ::
         1 <= attempt <= 2 && OnRoute(upload, UPLOAD_ROUTE, lib) && env.upload(role, attempt, upload) == Reply(u)
  }

  /** The bytes the store gives back have the file's size and digest. */
  predicate ReadsBackAs(reading: Reading, file: Bytes, hash: Bytes -> string) {
    reading.body.Some? && |reading.body.value| == |file| && hash(reading.body.value) == hash(file)
  }

  /** The customer's store, read back, gave the size and digest of the very file the executor left,
      under the task's own key. */
  ghost predicate ConfirmedByReadBack(u: Upload, task: Task, role: Role, path: string, env: Env, lib: Library) {
    && path in env.execution.produced && Measures(u, env.execution.produced[path], lib.hash)
    && OutputKey(env.owner.prefix, task, role).Some?
    && var key := OutputKey(env.owner.prefix, task, role).value;
    && u.reference == ReferenceText(env.owner.agentId, key)
    && env.put(role, key).stored && ReadsBackAs(env.put(role, key).reading, env.execution.produced[path], lib.hash)
  }

  ghost predicate Confirmed(u: Upload, task: Task, role: Role, path: string, env: Env, lib: Library) {
    if env.mode == 1 then ConfirmedByControlPlane(u, role, path, env, lib) else ConfirmedByReadBack(u, task, role, path, env, lib)
  }

  lemma {:induction false} UploadOnceConfirms(outputs: seq<Output>, role: Role, attempt: nat, path: string, env: Env, lib: Library)
    requires 1 <= attempt <= 2
    ensures var u := UploadOnce(outputs, role, attempt, path, env, lib); u.Some? ==> ConfirmedByControlPlane(u.value, role, path, env, lib)
  {
    hide OnRoute, Ticket;
    var u := UploadOnce(outputs, role, attempt, path, env, lib);
    if u.Some? {
      var upload := Ticket(outputs, role).value.uploadPath;
      assert OnRoute(upload, UPLOAD_ROUTE, lib) && env.upload(role, attempt, upload) == Reply(u.value);
    }
  }

  lemma {:induction false} UploadTwiceConfirms(outputs: seq<Output>, role: Role, path: string, env: Env, lib: Library)
    ensures var u := UploadTwice(outputs, role, path, env, lib).0; u.Some? ==> ConfirmedByControlPlane(u.value, role, path, env, lib)
  {
    hide UploadOnce, ConfirmedByControlPlane;
    UploadOnceConfirms(outputs, role, 1, path, env, lib);
    var b := Refreshed(env, DuringUpload(role));
    if b.Some? {
      UploadOnceConfirms(b.value.outputs, role, 2, path, env, lib);
    }
  }

  lemma {:induction false} CustomerUploadConfirms(task: Task, role: Role, path: string, env: Env, lib: Library)
    requires HexHash(lib.hash)
    ensures var u := UploadToCustomer(task, role, path, env, lib); u.Some? ==> ConfirmedByReadBack(u.value, task, role, path, env, lib)
  {
    hide OutputKey, ReferenceText, ValidKey, IsDigest, IsHexDigest, ToLower;
    if path in env.execution.produced {
      HexDigestIsCanonical(lib.hash(env.execution.produced[path]));
    }
  }

  lemma {:induction false} ControlPlaneCompletes(env: Env, lib: Library)
    ensures var report := PublishThroughControlPlane(env, lib); report.Complete? ==>
              && ConfirmedByControlPlane(report.apk, BuiltApk, env.execution.result.apkPath, env, lib)
              && (if Blank(env.execution.result.logPath) then report.buildLog == ClaimedLog(env.execution.result)
                  else exists u :: report.buildLog == LogOf(u) && ConfirmedByControlPlane(u, BuildLog, env.execution.result.logPath, env, lib))
              && !Blank(report.apk.reference)
  {
    hide ConfirmedByControlPlane, UploadTwice, TrimSpace, Encode, Truncated;
    var r := env.execution.result;
    var b := Refreshed(env, AfterBuild);
    if b.Some? {
      UploadTwiceConfirms(b.value.outputs, BuiltApk, r.apkPath, env, lib);
      UploadTwiceConfirms(UploadTwice(b.value.outputs, BuiltApk, r.apkPath, env, lib).1, BuildLog, r.logPath, env, lib);
    }
  }

  lemma {:induction false} CustomerCompletes(task: Task, env: Env, lib: Library)
    requires HexHash(lib.hash)
    ensures var report := PublishToCustomer(task, env, lib); report.Complete? ==>
              && ConfirmedByReadBack(report.apk, task, BuiltApk, env.execution.result.apkPath, env, lib)
              && (if Blank(env.execution.result.logPath) then report.buildLog == ClaimedLog(env.execution.result)
                  else exists u :: report.buildLog == LogOf(u) && ConfirmedByReadBack(u, task, BuildLog, env.execution.result.logPath, env, lib))
              && !Blank(report.apk.reference)
  {
    hide ConfirmedByReadBack, UploadToCustomer, TrimSpace, Encode, Truncated;
    CustomerUploadConfirms(task, BuiltApk, env.execution.result.apkPath, env, lib);
    CustomerUploadConfirms(task, BuildLog, env.execution.result.logPath, env, lib);
  }

  /** "Complete" means: every input was verified and handed over, the build was clean, and the APK
      it reports has the size and digest of the file the executor left, confirmed by the other side.
      A log is confirmed the same way exactly when the executor named one; otherwise its own claim
      is passed on. */
  lemma {:induction false} CompleteMeansConfirmed(task: Task, bundle: Option<Bundle>, env: Env, lib: Library)
    requires env.mode != 1 ==> HexHash(lib.hash)
    ensures var v := Verdict(task, bundle, env, lib); v.Some? && v.value.Complete? ==>
              && Runs(bundle, env, lib) && BuildClean(env.execution)
              && Confirmed(v.value.apk, task, BuiltApk, env.execution.result.apkPath, env, lib)
              && (if Blank(env.execution.result.logPath) then v.value.buildLog == ClaimedLog(env.execution.result)
                  else exists u :: v.value.buildLog == LogOf(u) && Confirmed(u, task, BuildLog, env.execution.result.logPath, env, lib))
  {
    hide FetchStage, ConfirmedByControlPlane, ConfirmedByReadBack, PublishThroughControlPlane, PublishToCustomer, TrimSpace, Encode, Truncated;
    if env.mode == 1 {
      ControlPlaneCompletes(env, lib);
      var report := PublishThroughControlPlane(env, lib);
      if report.Complete? && !Blank(env.execution.result.logPath) {
        var u :| report.buildLog == LogOf(u) && ConfirmedByControlPlane(u, BuildLog, env.execution.result.logPath, env, lib);
        assert Confirmed(u, task, BuildLog, env.execution.result.logPath, env, lib);
      }
    } else {
      CustomerCompletes(task, env, lib);
      var report := PublishToCustomer(task, env, lib);
      if report.Complete? && !Blank(env.execution.result.logPath) {
        var u :| report.buildLog == LogOf(u) && ConfirmedByReadBack(u, task, BuildLog, env.execution.result.logPath, env, lib);
        assert Confirmed(u, task, BuildLog, env.execution.result.logPath, env, lib);
      }
    }
  }

  /** The customer's store took the file and, read back, gives its size and digest. */
  ghost predicate StoredAlike(task: Task, role: Role, path: string, env: Env, lib: Library) {
    OutputKey(env.owner.prefix, task, role).Some? && path in env.execution.produced &&
    var file, put := env.execution.produced[path], env.put(role, OutputKey(env.owner.prefix, task, role).value);
    && file != [] && put.stored && put.reading.size == Some(|file|) && !put.reading.broken
    && ReadsBackAs(put.reading, file, lib.hash)
  }

  /** The customer's store took the file and, read back, holds all of it. */
  ghost predicate StoredWhole(task: Task, role: Role, path: string, env: Env) {
    OutputKey(env.owner.prefix, task, role).Some? && path in env.execution.produced &&
    var file, put := env.execution.produced[path], env.put(role, OutputKey(env.owner.prefix, task, role).value);
    file != [] && put.stored && put.reading == Reading(Some(|file|), Some(file), false)
  }

  /** The digest does not collide on the two byte strings this upload compares. */
  ghost predicate NoCollision(task: Task, role: Role, path: string, env: Env, lib: Library) {
    OutputKey(env.owner.prefix, task, role).Some? ==>
    var reading := env.put(role, OutputKey(env.owner.prefix, task, role).value).reading;
    path in env.execution.produced && reading.body.Some?
    && lib.hash(reading.body.value) == lib.hash(env.execution.produced[path])
    ==> reading.body.value == env.execution.produced[path]
  }

  lemma {:induction false} CustomerUploadIsExact(task: Task, role: Role, path: string, env: Env, lib: Library)
    requires HexHash(lib.hash)
    requires ValidKey(env.owner.prefix) && ValidTask(task) && env.owner.agentId > 0
    ensures OutputKey(env.owner.prefix, task, role).Some?
    ensures UploadToCustomer(task, role, path, env, lib).Some? <==> StoredAlike(task, role, path, env, lib)
    ensures UploadToCustomer(task, role, path, env, lib).Some? ==> !Blank(UploadToCustomer(task, role, path, env, lib).value.reference)
  {
    hide ValidKey, IsDigest, IsHexDigest, ToLower, ReferenceText, TrimSpace;
    OutputKeysAreValid(env.owner.prefix, task, role);
    var key := OutputKey(env.owner.prefix, task, role).value;
    ReferenceIsTrimmed(env.owner.agentId, key);
    ReferenceIsText(env.owner.agentId, key);
    if path in env.execution.produced {
      HexDigestIsCanonical(lib.hash(env.execution.produced[path]));
    }
  }

  lemma {:induction false} ReferenceIsText(agentId: int, key: string)
    ensures ReferenceText(agentId, key) != ""
  {
  }

  /** A customer-storage run completes exactly when it gets to a clean build whose APK, and log if
      it names one, the customer's store gives back with their size and digest. */
  lemma {:induction false} CustomerRunsComplete(task: Task, bundle: Option<Bundle>, env: Env, lib: Library)
    requires HexHash(lib.hash) && env.mode == 2
    requires ValidKey(env.owner.prefix) && ValidTask(task) && env.owner.agentId > 0
    ensures var v, r := Verdict(task, bundle, env, lib), env.execution.result;
            && OutputKey(env.owner.prefix, task, BuiltApk).Some? && OutputKey(env.owner.prefix, task, BuildLog).Some?
            && (v.Some? && v.value.Complete? <==>
                  && Runs(bundle, env, lib) && BuildClean(env.execution)
                  && !Blank(r.apkPath) && StoredAlike(task, BuiltApk, r.apkPath, env, lib)
                  && (Blank(r.logPath) || StoredAlike(task, BuildLog, r.logPath, env, lib)))
  {
    hide ValidKey, StoredAlike, UploadToCustomer, TrimSpace, Encode, Truncated, FetchStage, OutputKey, ValidTask;
    var r := env.execution.result;
    CustomerUploadIsExact(task, BuiltApk, r.apkPath, env, lib);
    CustomerUploadIsExact(task, BuildLog, r.logPath, env, lib);
  }

  /** Unless the digest collides on what these uploads compare, completion means that the store
      holds the very files. */
  lemma {:induction false} CustomerRunsStoreTheFiles(task: Task, bundle: Option<Bundle>, env: Env, lib: Library)
    requires HexHash(lib.hash) && env.mode == 2
    requires ValidKey(env.owner.prefix) && ValidTask(task) && env.owner.agentId > 0
    requires NoCollision(task, BuiltApk, env.execution.result.apkPath, env, lib)
    requires NoCollision(task, BuildLog, env.execution.result.logPath, env, lib)
    ensures var v, r := Verdict(task, bundle, env, lib), env.execution.result;
            && OutputKey(env.owner.prefix, task, BuiltApk).Some? && OutputKey(env.owner.prefix, task, BuildLog).Some?
            && (v.Some? && v.value.Complete? <==>
                  && Runs(bundle, env, lib) && BuildClean(env.execution)
                  && !Blank(r.apkPath) && StoredWhole(task, BuiltApk, r.apkPath, env)
                  && (Blank(r.logPath) || StoredWhole(task, BuildLog, r.logPath, env)))
  {
    hide Verdict, Runs, ValidKey, OutputKey, ValidTask, TrimSpace, HexHash;
    CustomerRunsComplete(task, bundle, env, lib);
    AlikeIsWhole(task, BuiltApk, env.execution.result.apkPath, env, lib);
    AlikeIsWhole(task, BuildLog, env.execution.result.logPath, env, lib);
  }

  lemma {:induction false} AlikeIsWhole(task: Task, role: Role, path: string, env: Env, lib: Library)
    requires NoCollision(task, role, path, env, lib)
    ensures StoredAlike(task, role, path, env, lib) <==> StoredWhole(task, role, path, env)
  {
    hide OutputKey;
  }

  // ------------------------------------------------ completion through the control plane

  predicate TicketFor(output: Output, role: Role) {
    match role case BuiltApk => output.role == "built_apk" case BuildLog => output.role == "build_log"
  }

  /** The first ticket for the role leads to an answer that confirms the local file. */
  ghost predicate Answered(outputs: seq<Output>, role: Role, attempt: nat, path: string, u: Upload, env: Env, lib: Library) {
    && path in env.execution.produced && u.reference != "" && Measures(u, env.execution.produced[path], lib.hash)
    && exists i :: 0 <= i < |outputs| && TicketFor(outputs[i], role)
         && (forall k :: 0 <= k < i ==> !TicketFor(outputs[k], role))
         && OnRoute(outputs[i].uploadPath, "/v1/artifacts/upload/", lib) && env.upload(role, attempt, outputs[i].uploadPath) == Reply(u)
  }

  /** Answered at once, or not at once but with the tickets of one refresh. `after` is the ticket
      list that is in force then. */
  ghost predicate AnsweredWithRefresh(outputs: seq<Output>, role: Role, path: string, u: Upload, after: seq<Output>, env: Env, lib: Library) {
    || (after == outputs && Answered(outputs, role, 1, path, u, env, lib))
    || (&& (forall v :: !Answered(outputs, role, 1, path, v, env, lib))
        && var b := env.refresh(DuringUpload(role));
        && b.Some? && b.value.schemaVersion == 3 && after == b.value.outputs
        && Answered(after, role, 2, path, u, env, lib))
  }

  lemma {:induction false} TicketIsFirst(outputs: seq<Output>, role: Role)
    ensures var t := Ticket(outputs, role);
            && (t.None? <==> forall i :: 0 <= i < |outputs| ==> !TicketFor(outputs[i], role))
            && (t.Some? ==> exists i :: 0 <= i < |outputs| && outputs[i] == t.value && TicketFor(outputs[i], role)
                              && forall k :: 0 <= k < i ==> !TicketFor(outputs[k], role))
  {
    if outputs != [] {
      var rest := outputs[1..];
      RoleNameIs(outputs[0], role);
      hide TicketFor, RoleName;
      assert forall k :: 0 < k < |outputs| ==> outputs[k] == rest[k - 1];
      if !TicketFor(outputs[0], role) {
        TicketIsFirst(rest, role);
        if Ticket(rest, role).Some? {
          var i :| 0 <= i < |rest| && rest[i] == Ticket(rest, role).value && TicketFor(rest[i], role)
            && forall k :: 0 <= k < i ==> !TicketFor(rest[k], role);
          assert outputs[i + 1] == rest[i];
        }
      }
    }
  }

  lemma {:induction false} RoleNameIs(output: Output, role: Role)
    ensures TicketFor(output, role) <==> output.role == RoleName(role)
  {
  }

  lemma {:induction false} UploadOnceIsExact(outputs: seq<Output>, role: Role, attempt: nat, path: string, env: Env, lib: Library)
    ensures forall u :: UploadOnce(outputs, role, attempt, path, env, lib) == Some(u) <==> Answered(outputs, role, attempt, path, u, env, lib)
  {
    hide OnRoute, TicketFor, Ticket, Measures;
    TicketIsFirst(outputs, role);
  }

  lemma {:induction false} UploadTwiceIsExact(outputs: seq<Output>, role: Role, path: string, env: Env, lib: Library)
    ensures forall u, after :: UploadTwice(outputs, role, path, env, lib) == (Some(u), after)
                               <==> AnsweredWithRefresh(outputs, role, path, u, after, env, lib)
  {
    hide UploadOnce, Answered;
    UploadOnceIsExact(outputs, role, 1, path, env, lib);
    var b := Refreshed(env, DuringUpload(role));
    if b.Some? {
      UploadOnceIsExact(b.value.outputs, role, 2, path, env, lib);
    }
    assert UploadOnce(outputs, role, 1, path, env, lib).None? <==> forall v :: !Answered(outputs, role, 1, path, v, env, lib);
  }

  /** A control-plane run completes with exactly those reports: it gets to a clean build, tickets are
      refreshed, and the APK, then the log if the executor names one, is answered with the local
      size and digest, at once or after one more refresh. */
  lemma {:induction false} ControlPlaneRunsComplete(task: Task, bundle: Option<Bundle>, env: Env, lib: Library, apk: Upload, log: Log)
    requires env.mode == 1
    ensures var r, b := env.execution.result, env.refresh(AfterBuild);
            Verdict(task, bundle, env, lib) == Some(Complete(apk, log)) <==>
              && Runs(bundle, env, lib) && BuildClean(env.execution)
              && b.Some? && b.value.schemaVersion == 3 && !Blank(r.apkPath) && !Blank(apk.reference)
              && exists after ::
                   && AnsweredWithRefresh(b.value.outputs, BuiltApk, r.apkPath, apk, after, env, lib)
                   && if Blank(r.logPath) then log == ClaimedLog(r)
                      else exists u, last :: AnsweredWithRefresh(after, BuildLog, r.logPath, u, last, env, lib) && log == LogOf(u)
  {
    hide FetchStage, AnsweredWithRefresh, UploadTwice, TrimSpace, Encode, Truncated, FailedBuild;
    FailedBuildFails(task, if Runs(bundle, env, lib) then FetchStage(bundle.value, env, lib).outputs else [], env, lib);
    PublishIsExact(env, lib, apk, log);
  }

  lemma {:induction false} PublishIsExact(env: Env, lib: Library, apk: Upload, log: Log)
    ensures var r, b := env.execution.result, env.refresh(AfterBuild);
            PublishThroughControlPlane(env, lib) == Complete(apk, log) <==>
              && b.Some? && b.value.schemaVersion == 3 && !Blank(r.apkPath) && !Blank(apk.reference)
              && exists after ::
                   && AnsweredWithRefresh(b.value.outputs, BuiltApk, r.apkPath, apk, after, env, lib)
                   && if Blank(r.logPath) then log == ClaimedLog(r)
                      else exists u, last :: AnsweredWithRefresh(after, BuildLog, r.logPath, u, last, env, lib) && log == LogOf(u)
  {
    hide AnsweredWithRefresh, UploadTwice, TrimSpace, Encode, Truncated;
    var r, b := env.execution.result, Refreshed(env, AfterBuild);
    if b.Some? {
      UploadTwiceIsExact(b.value.outputs, BuiltApk, r.apkPath, env, lib);
      var first := UploadTwice(b.value.outputs, BuiltApk, r.apkPath, env, lib);
      UploadTwiceIsExact(first.1, BuildLog, r.logPath, env, lib);
      var second := UploadTwice(first.1, BuildLog, r.logPath, env, lib);
      assert first == (first.0, first.1) && second == (second.0, second.1);
    }
  }

  // ------------------------------------------------------- reaching the executor

  /** The inputs all arrive: through the control plane at once, or with the tickets of one refresh;
      or out of the customer's store, if it is the one this agent is registered with. */
  ghost predicate InputsArrive(bundle: Bundle, env: Env, lib: Library) {
    || (env.mode == 1
        && (|| AllFetched(bundle.inputs, Answers(env, 1), lib)
            || (var b := env.refresh(AfterDownload);
                b.Some? && b.value.schemaVersion == 3 && AllFetched(b.value.inputs, Answers(env, 2), lib))))
    || (env.mode == 2 && TrimSpace(env.storageRef) != "" && env.storageRef == env.registeredRef && env.storeOk
        && AllCopied(bundle.inputs, env.owner, env.store, lib))
  }

  /** The executor's inputs are those of the bundle, or of the refreshed one, each with its own file. */
  ghost predicate ArrivedInputs(inputs: seq<Input>, bundle: Bundle, env: Env, lib: Library) {
    var source :=
      if env.mode == 1 && !AllFetched(bundle.inputs, Answers(env, 1), lib) && env.refresh(AfterDownload).Some?
      then env.refresh(AfterDownload).value.inputs else bundle.inputs;
    |inputs| == |source| && forall i :: 0 <= i < |source| ==> inputs[i] == source[i].(localPath := Target(i, source[i]))
  }

  /** A run reaches the executor exactly when its bundle is of this protocol and not blocked, the
      agent's own preparations succeed, and the inputs arrive. */
  lemma {:induction false} RunsExactly(bundle: Option<Bundle>, env: Env, lib: Library)
    ensures Runs(bundle, env, lib) <==>
            && bundle.Some? && bundle.value.schemaVersion == 3 && bundle.value.blockedReason == ""
            && env.secretOk && env.workDirOk && env.taskFileOk && InputsArrive(bundle.value, env, lib)
    ensures Runs(bundle, env, lib) ==> ArrivedInputs(FetchStage(bundle.value, env, lib).inputs, bundle.value, env, lib)
  {
    hide AllFetched, AllCopied, TrimSpace, Target;
  }

  // ------------------------------------------------------------- failed builds

  /** The failure message carries `text`: trimmed, as UTF-8, and its first 1900 bytes. */
  predicate CarriesText(message: Bytes, text: string) {
    var b := Encode(TrimSpace(text));
    if b == [] then message == Encode("LOCAL_EXECUTOR_FAILED")
    else message <= b && |message| <= 1900 && (|message| < |b| ==> |message| == 1900)
  }

  /** Some upload of the log through the control plane is confirmed. */
  ghost predicate LogAnswered(env: Env, u: Upload, lib: Library) {
    var b := env.refresh(AfterBuild);
    && b.Some? && b.value.schemaVersion == 3
    && exists last :: AnsweredWithRefresh(b.value.outputs, BuildLog, env.execution.result.logPath, u, last, env, lib)
  }

  /** The log a failed build reports: the uploaded one if there is a log and its upload is confirmed,
      and the executor's own claim otherwise. */
  ghost predicate ReportsLog(log: Log, task: Task, env: Env, lib: Library) {
    var r := env.execution.result;
    var claim := Log(r.logReference, r.logSha256, r.logSize);
    if Blank(r.logPath) then log == claim
    else if env.mode == 1 then
      (exists u :: LogAnswered(env, u, lib) && log == Log(u.reference, u.sha256, u.size))
      || (log == claim && forall u :: !LogAnswered(env, u, lib))
    else if StoredAlike(task, BuildLog, r.logPath, env, lib) then
      var file := env.execution.produced[r.logPath];
      log == Log(ReferenceText(env.owner.agentId, OutputKey(env.owner.prefix, task, BuildLog).value), lib.hash(file), |file|)
    else log == claim
  }

  /** What every run with a failed build reports: the result's error or else the run's, with the
      digest of the executor's output, and the log. */
  lemma {:induction false} FailedBuildsReport(task: Task, bundle: Option<Bundle>, env: Env, lib: Library)
    requires Runs(bundle, env, lib) && !(env.execution.runErr.None? && env.execution.result.error == "")
    requires env.mode == 2 ==> HexHash(lib.hash) && ValidKey(env.owner.prefix) && ValidTask(task) && env.owner.agentId > 0
    ensures var v, x := Verdict(task, bundle, env, lib), env.execution;
            && v.Some? && v.value.Fail? && v.value.log.Some?
            && ReportsLog(v.value.log.value, task, env, lib)
            && CarriesText(v.value.message,
                 (if x.result.error != "" then x.result.error else x.runErr.value)
                 + (if x.outputDigest.Some? then "; executor output sha256=" + x.outputDigest.value else ""))
  {
    hide FetchStage, Runs, TrimSpace, Encode, ValidKey, ValidTask, OutputKey, FailedBuild, FailureText, Truncated, ReportsLog,
         PublishThroughControlPlane, PublishToCustomer, CarriesText;
    RunsUnfold(task, bundle, env, lib);
    var outputs := FetchStage(bundle.value, env, lib).outputs;
    FailedBuildSays(task, outputs, env, lib);
    FailedBuildLog(task, outputs, env, lib);
  }

  lemma {:induction false} RunsUnfold(task: Task, bundle: Option<Bundle>, env: Env, lib: Library)
    requires Runs(bundle, env, lib)
    ensures bundle.Some? && FetchStage(bundle.value, env, lib).Fetched? && (env.mode == 1 || env.mode == 2)
    ensures !BuildClean(env.execution) ==>
              Verdict(task, bundle, env, lib) == Some(FailedBuild(task, FetchStage(bundle.value, env, lib).outputs, env, lib))
  {
    hide FetchStage, Encode, TrimSpace, FailedBuild;
    FetchedModes(bundle.value, env, lib);
  }

  lemma {:induction false} FailedBuildSays(task: Task, outputs: seq<Output>, env: Env, lib: Library)
    requires !(env.execution.runErr.None? && env.execution.result.error == "")
    ensures var report, x := FailedBuild(task, outputs, env, lib), env.execution;
            && report.Fail? && report.log.Some?
            && CarriesText(report.message,
                 (if x.result.error != "" then x.result.error else x.runErr.value)
                 + (if x.outputDigest.Some? then "; executor output sha256=" + x.outputDigest.value else ""))
  {
    hide TrimSpace, UploadTwice, UploadToCustomer, Encode;
    var text := if env.execution.result.error != "" then env.execution.result.error else env.execution.runErr.value;
    assert text + "" == text;
    if env.execution.outputDigest.Some? {
      var digest := env.execution.outputDigest.value;
      assert text + "; executor output sha256=" + digest == text + ("; executor output sha256=" + digest);
    }
  }

  lemma {:induction false} FailedBuildLog(task: Task, outputs: seq<Output>, env: Env, lib: Library)
    requires env.mode == 1 || env.mode == 2
    requires env.mode == 2 ==> HexHash(lib.hash) && ValidKey(env.owner.prefix) && ValidTask(task) && env.owner.agentId > 0
    ensures FailedBuild(task, outputs, env, lib).log.Some?
    ensures ReportsLog(FailedBuild(task, outputs, env, lib).log.value, task, env, lib)
  {
    hide TrimSpace, UploadTwice, UploadToCustomer, Encode, Truncated, FailureText, ValidKey, ValidTask, OutputKey, AnsweredWithRefresh, StoredAlike, ReferenceText;
    var r, b := env.execution.result, Refreshed(env, AfterBuild);
    if env.mode == 1 && b.Some? {
      UploadTwiceIsExact(b.value.outputs, BuildLog, r.logPath, env, lib);
      var up := UploadTwice(b.value.outputs, BuildLog, r.logPath, env, lib);
      assert up == (up.0, up.1);
    }
    if env.mode == 2 {
      CustomerUploadIsExact(task, BuildLog, r.logPath, env, lib);
      CustomerUploadNames(task, BuildLog, r.logPath, env, lib);
    }
  }

  lemma {:induction false} CustomerUploadNames(task: Task, role: Role, path: string, env: Env, lib: Library)
    ensures var u := UploadToCustomer(task, role, path, env, lib); u.Some? ==>
              && path in env.execution.produced && OutputKey(env.owner.prefix, task, role).Some?
              && u.value == Upload(ReferenceText(env.owner.agentId, OutputKey(env.owner.prefix, task, role).value),
                                   lib.hash(env.execution.produced[path]), |env.execution.produced[path]|)
  {
    hide OutputKey, ReferenceText, ValidKey, Holds;
  }

  // ---------------------------------------------------------------- uniqueness

  lemma {:induction false} CustomerReportReference(task: Task, env: Env, lib: Library)
    ensures var report := PublishToCustomer(task, env, lib); report.Complete? ==>
              && OutputKey(env.owner.prefix, task, BuiltApk).Some?
              && report.apk.reference == ReferenceText(env.owner.agentId, OutputKey(env.owner.prefix, task, BuiltApk).value)
  {
    hide OutputKey, ReferenceText, ValidKey, Holds, TrimSpace, Encode, Truncated;
  }

  /** Two completed customer-storage runs share an APK reference only if they are the same attempt
      of the same task of the same agent. */
  lemma {:induction false} CustomerReferencesAreUnique(
      task: Task, bundle: Option<Bundle>, env: Env, other: Task, otherBundle: Option<Bundle>, otherEnv: Env, lib: Library)
    requires ValidKey(env.owner.prefix)
    requires env.mode == 2 && otherEnv.mode == 2 && env.owner.prefix == otherEnv.owner.prefix
    requires var v, w := Verdict(task, bundle, env, lib), Verdict(other, otherBundle, otherEnv, lib);
             v.Some? && v.value.Complete? && w.Some? && w.value.Complete? && v.value.apk.reference == w.value.apk.reference
    ensures task == other && env.owner.agentId == otherEnv.owner.agentId
  {
    hide Runs, ValidKey, OutputKey, ReferenceText, FetchStage, PublishToCustomer, FailedBuild, Encode, Truncated;
    CompletedPublish(task, bundle, env, lib);
    CompletedPublish(other, otherBundle, otherEnv, lib);
    CustomerReportReference(task, env, lib);
    CustomerReportReference(other, otherEnv, lib);
    var key, otherKey := OutputKey(env.owner.prefix, task, BuiltApk), OutputKey(env.owner.prefix, other, BuiltApk);
    KeyNeedsTask(env.owner.prefix, task);
    KeyNeedsTask(env.owner.prefix, other);
    ReferencesAreDistinct(env.owner.agentId, key.value, otherEnv.owner.agentId, otherKey.value);
    OutputKeysAreDistinct(env.owner.prefix, task, BuiltApk, other, BuiltApk);
  }

  lemma {:induction false} CompletedPublish(task: Task, bundle: Option<Bundle>, env: Env, lib: Library)
    requires env.mode == 2
    ensures var v := Verdict(task, bundle, env, lib); v.Some? && v.value.Complete? ==> v.value == PublishToCustomer(task, env, lib)
  {
    hide FetchStage, PublishToCustomer, Encode, Truncated;
  }

  lemma {:induction false} KeyNeedsTask(prefix: string, task: Task)
    ensures OutputKey(prefix, task, BuiltApk).Some? ==> ValidTask(task)
  {
  }
}
