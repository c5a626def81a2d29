/** The signed manifests of the AIR_GAPPED task and result packages and their validators. */
module AirgapManifest {
  import opened Text
  import opened Utf8

  const SCHEMA_VERSION := 1
  const SIGNATURE_ALGORITHM := "ECDSA_P256_SHA256"
  const TASK_MANIFEST := "manifest.json"
  const RESULT_MANIFEST := "result.json"
  const MAX_MANIFEST_BYTES := 2 * 1024 * 1024
  const INPUTS := "inputs/"
  const OUTPUTS := "outputs/"

  type Int64 = n: int | -0x8000_0000_0000_0000 <= n < 0x8000_0000_0000_0000

  datatype Artifact = Artifact(
    role: string, path: string, objectId: Int64, objectType: int, originalName: string,
    contentType: string, sizeBytes: Int64, sha256: string)

  datatype TaskManifest = TaskManifest(
    schemaVersion: int, packageCode: string, nonce: string, tenantId: int, agentId: int,
    serial: string, taskId: int, attempt: int, issuedAt: int, expiresAt: int,
    bundle: string, inputs: seq<Artifact>)

  /** `errorMessage` is kept as bytes because the agent cuts it at a byte count. */
  datatype ResultManifest = ResultManifest(
    schemaVersion: int, packageCode: string, nonce: string, tenantId: int, agentId: int,
    serial: string, taskId: int, attempt: int, exportSha256: string, builtAt: int,
    status: string, errorMessage: Bytes, outputs: seq<Artifact>)

  datatype Signature = Signature(algorithm: string, value: string)
  datatype TaskEnvelope = TaskEnvelope(manifest: TaskManifest, signature: Signature)
  datatype ResultEnvelope = ResultEnvelope(manifest: ResultManifest, certificatePem: string, signature: Signature)

  /** Library code the packages rest on: SHA-256 in lower hex, JSON, and strict Base64
      (the decoded length, or nothing). */
  datatype Library = Library(
    sha256: Bytes -> string,
    jsonValid: string -> bool,
    base64: string -> Option<nat>,
    encodeTask: TaskEnvelope -> Bytes,
    decodeTask: Bytes -> Option<TaskEnvelope>,
    encodeResult: ResultEnvelope -> Bytes,
    decodeResult: Bytes -> Option<ResultEnvelope>)

  // ---------------------------------------------------------------- patterns

  predicate IsAlnum(c: char) { IsDigit(c) || 'a' <= c <= 'z' || 'A' <= c <= 'Z' }

  predicate IsIdentifier(s: string) {
    && 8 <= |s| <= 128 && IsAlnum(s[0])
    && forall i :: 0 < i < |s| ==> IsAlnum(s[i]) || s[i] == '.' || s[i] == '_' || s[i] == '-'
  }

  predicate IsSha256(s: string) {
    |s| == 64 && forall i :: 0 <= i < |s| ==> IsDigit(s[i]) || 'a' <= s[i] <= 'f'
  }

  const DIGITS := "0123456789"
  const CAPITALS := "ABCDEFGHIJKLMNOPQRSTUVWXYZ"
  const SMALL_LETTERS := "abcdefghijklmnopqrstuvwxyz"
  const ALPHANUMERICS := DIGITS + CAPITALS + SMALL_LETTERS
  const HEX_DIGITS := "0123456789abcdef"

  lemma {:induction false} DigitChars(c: char)
    ensures '0' <= c <= '9' <==> c in DIGITS
    ensures '0' <= c <= '9' || 'a' <= c <= 'f' <==> c in HEX_DIGITS
  {
    if '0' <= c <= '9' {
      assert DIGITS[c as int - '0' as int] == c && HEX_DIGITS[c as int - '0' as int] == c;
    } else if 'a' <= c <= 'f' {
      assert HEX_DIGITS[c as int - 'a' as int + 10] == c;
    }
  }

  lemma {:induction false} CapitalChars(c: char)
    ensures 'A' <= c <= 'Z' <==> c in CAPITALS
  {
    if 'A' <= c <= 'Z' {
      assert CAPITALS[c as int - 'A' as int] == c;
    }
  }

  lemma {:induction false} SmallChars(c: char)
    ensures 'a' <= c <= 'z' <==> c in SMALL_LETTERS
  {
    if 'a' <= c <= 'z' {
      assert SMALL_LETTERS[c as int - 'a' as int] == c;
    }
  }

  lemma {:induction false} PatternChars(c: char)
    ensures IsAlnum(c) <==> c in ALPHANUMERICS
    ensures IsDigit(c) || 'a' <= c <= 'f' <==> c in HEX_DIGITS
  {
    DigitChars(c);
    CapitalChars(c);
    SmallChars(c);
    InThree(c, DIGITS, CAPITALS, SMALL_LETTERS);
  }

  lemma {:induction false} InThree(c: char, x: string, y: string, z: string)
    ensures c in x + y + z <==> c in x || c in y || c in z
  {
  }

  /** The two regular expressions, character by character. */
  lemma {:induction false} PatternsMatch(s: string)
    ensures IsIdentifier(s) <==>
            && 8 <= |s| <= 128 && s[0] in ALPHANUMERICS
            && forall i :: 0 <= i < |s| ==> s[i] in ALPHANUMERICS || s[i] == '.' || s[i] == '_' || s[i] == '-'
    ensures IsSha256(s) <==> |s| == 64 && forall i :: 0 <= i < |s| ==> s[i] in HEX_DIGITS
  {
    hide IsAlnum, IsDigit;
    forall i | 0 <= i < |s|
      ensures IsAlnum(s[i]) <==> s[i] in ALPHANUMERICS
      ensures IsDigit(s[i]) || 'a' <= s[i] <= 'f' <==> s[i] in HEX_DIGITS
    {
      PatternChars(s[i]);
    }
  }

  /** strings.TrimSpace leaves nothing of these bytes. */
  predicate BlankBytes(b: Bytes) {
    var s := Decode(b);
    s.Some? && AllSpaces(s.value)
  }

  // --------------------------------------------------------------- artifacts

  predicate ArtifactOk(a: Artifact, prefix: string) {
    && TrimSpace(a.role) != "" && Size(TrimSpace(a.role)) <= 64
    && TrimSpace(a.path) == a.path && HasPrefix(a.path, prefix)
    && !Contains(a.path, "..") && !ContainsAny(a.path, "\\\r\n\0")
    && a.sizeBytes > 0 && IsSha256(a.sha256)
    && TrimSpace(a.originalName) != "" && Size(a.originalName) <= 255
    && !ContainsAny(a.originalName, "/\\\r\n\0") && Size(a.contentType) <= 255
  }

  predicate MayRepeat(role: string, prefix: string) {
    prefix == INPUTS && role == "template_file"
  }

  function RoleOf(a: Artifact): string { TrimSpace(a.role) }

  predicate IsSource(a: Artifact) { RoleOf(a) == "source_apk" }

  predicate EachOk(items: seq<Artifact>, n: nat, prefix: string)
    requires n <= |items|
  {
    forall i :: 0 <= i < n ==> ArtifactOk(items[i], prefix)
  }

  predicate PathsDistinct(items: seq<Artifact>, n: nat)
    requires n <= |items|
  {
    forall i, j :: 0 <= i < j < n ==> items[i].path != items[j].path
  }

  predicate RolesDistinct(items: seq<Artifact>, n: nat, prefix: string)
    requires n <= |items|
  {
    forall i, j :: 0 <= i < j < n && RoleOf(items[i]) == RoleOf(items[j]) ==> MayRepeat(RoleOf(items[i]), prefix)
  }

  predicate ArtifactsOk(items: seq<Artifact>, prefix: string, requireSource: bool) {
    && EachOk(items, |items|, prefix)
    && PathsDistinct(items, |items|)
    && RolesDistinct(items, |items|, prefix)
    && (requireSource ==> exists i :: 0 <= i < |items| && IsSource(items[i]))
  }

  lemma {:induction false} RoleNames(a: Artifact, prefix: string)
    ensures RoleOf(a) == TrimSpace(a.role)
    ensures MayRepeat(RoleOf(a), prefix) <==> prefix == "inputs/" && TrimSpace(a.role) == "template_file"
  {
    hide TrimSpace;
  }

  /** The first test of the loop in validateArtifacts. */
  method ValidateArtifact(item: Artifact, prefix: string) returns (ok: bool)
    ensures ok <==> ArtifactOk(item, prefix)
  {
    hide TrimSpace, IsSha256, Size, Contains, ContainsAny;
    var role := TrimSpace(item.role);
    return !(role == "" || Size(role) > 64 || TrimSpace(item.path) != item.path
             || !HasPrefix(item.path, prefix) || Contains(item.path, "..") || ContainsAny(item.path, "\\\r\n\0")
             || item.sizeBytes <= 0 || !IsSha256(item.sha256) || TrimSpace(item.originalName) == ""
             || Size(item.originalName) > 255 || ContainsAny(item.originalName, "/\\\r\n\0") || Size(item.contentType) > 255);
  }

  method ValidateArtifacts(items: seq<Artifact>, prefix: string, requireSource: bool) returns (ok: bool)
    ensures ok <==> ArtifactsOk(items, prefix, requireSource)
  {
    hide TrimSpace, ArtifactOk, RoleOf, MayRepeat;
    var seenRole: set<string>, seenPath: set<string>, hasSource := {}, {}, false;
    for n := 0 to |items|
      invariant forall r :: r in seenRole <==> exists i :: 0 <= i < n && RoleOf(items[i]) == r
      invariant forall p :: p in seenPath <==> exists i :: 0 <= i < n && items[i].path == p
      invariant hasSource <==> exists i :: 0 <= i < n && IsSource(items[i])
      invariant EachOk(items, n, prefix) && PathsDistinct(items, n) && RolesDistinct(items, n, prefix)
    {
      var item := items[n];
      var role := TrimSpace(item.role);
      RoleNames(item, prefix);
      var valid := ValidateArtifact(item, prefix);
      if !valid {
        return false;
      }
      if role in seenRole && !(prefix == "inputs/" && role == "template_file") {
        return false;
      }
      if item.path in seenPath {
        return false;
      }
      seenRole, seenPath := seenRole + {role}, seenPath + {item.path};
      if role == "source_apk" {
        hasSource := true;
      }
    }
    return !requireSource || hasSource;
  }

  function Count(items: seq<Artifact>, role: string): nat {
    if items == [] then 0
    else Count(items[..|items| - 1], role) + if items[|items| - 1].role == role then 1 else 0
  }

  function CountIn(counts: map<string, nat>, role: string): nat {
    if role in counts then counts[role] else 0
  }

  predicate IsInputRole(role: string) {
    role in {"source_apk", "keystore", "brand_logo", "brand_splash", "template_file"}
  }

  /** Counts the roles, as both validators do; stops at an artifact that is not acceptable. */
  method CountRoles(items: seq<Artifact>, acceptable: Artifact -> bool) returns (ok: bool, counts: map<string, nat>)
    ensures ok <==> forall i :: 0 <= i < |items| ==> acceptable(items[i])
    ensures ok ==> forall r: string :: CountIn(counts, r) == Count(items, r)
  {
    counts := map[];
    for n := 0 to |items|
      invariant forall i :: 0 <= i < n ==> acceptable(items[i])
      invariant forall r: string :: CountIn(counts, r) == Count(items[..n], r)
    {
      assert items[..n + 1][..n] == items[..n];
      if !acceptable(items[n]) {
        return false, counts;
      }
      var role := items[n].role;
      counts := counts[role := CountIn(counts, role) + 1];
    }
    assert items[..|items|] == items;
    return true, counts;
  }

  // ----------------------------------------------------------- task manifest

  predicate TaskIdentityOk(m: TaskManifest, lib: Library) {
    && m.schemaVersion == SCHEMA_VERSION && IsIdentifier(m.packageCode) && IsIdentifier(m.nonce)
    && m.tenantId > 0 && m.agentId > 0 && m.taskId > 0 && m.attempt > 0
    && m.issuedAt > 0 && m.expiresAt > m.issuedAt
    && TrimSpace(m.serial) != "" && Size(m.serial) <= 128
    && m.bundle != "" && lib.jsonValid(m.bundle) && m.inputs != []
  }

  predicate TaskManifestOk(m: TaskManifest, lib: Library) {
    && TaskIdentityOk(m, lib)
    && ArtifactsOk(m.inputs, INPUTS, true)
    && (forall i :: 0 <= i < |m.inputs| ==> IsInputRole(m.inputs[i].role))
    && Count(m.inputs, "source_apk") == 1 && Count(m.inputs, "keystore") == 1
    && Count(m.inputs, "brand_logo") <= 1 && Count(m.inputs, "brand_splash") <= 1
  }

  method ValidateTaskManifest(m: TaskManifest, lib: Library) returns (ok: bool)
    ensures ok <==> TaskManifestOk(m, lib)
  {
    hide TrimSpace, IsIdentifier, Size, ArtifactsOk;
    if m.schemaVersion != SCHEMA_VERSION || !IsIdentifier(m.packageCode) || !IsIdentifier(m.nonce)
       || m.tenantId <= 0 || m.agentId <= 0 || m.taskId <= 0 || m.attempt <= 0 || m.issuedAt <= 0 || m.expiresAt <= m.issuedAt
       || TrimSpace(m.serial) == "" || Size(m.serial) > 128 || |m.bundle| == 0 || !lib.jsonValid(m.bundle) || |m.inputs| == 0 {
      return false;
    }
    var artifacts := ValidateArtifacts(m.inputs, "inputs/", true);
    if !artifacts {
      return false;
    }
    var supported, counts := CountRoles(m.inputs, (a: Artifact) =>
      match a.role case "source_apk" => true case "keystore" => true case "brand_logo" => true
                   case "brand_splash" => true case "template_file" => true case _ => false);
    return supported
        && CountIn(counts, "source_apk") == 1 && CountIn(counts, "keystore") == 1
        && CountIn(counts, "brand_logo") <= 1 && CountIn(counts, "brand_splash") <= 1;
  }

  // --------------------------------------------------------- result manifest

  predicate ResultIdentityOk(m: ResultManifest) {
    && m.schemaVersion == SCHEMA_VERSION && IsIdentifier(m.packageCode) && IsIdentifier(m.nonce)
    && m.tenantId > 0 && m.agentId > 0 && m.taskId > 0 && m.attempt > 0 && m.builtAt > 0
    && TrimSpace(m.serial) != "" && Size(m.serial) <= 128
    && IsSha256(m.exportSha256) && |m.errorMessage| <= 2000
    && 0x00 !in m.errorMessage && 0x0D !in m.errorMessage
  }

  predicate OutputPathOk(a: Artifact) {
    || (a.role == "built_apk" && a.path == "outputs/built.apk")
    || (a.role == "build_log" && a.path == "outputs/build.log")
  }

  predicate ResultManifestOk(m: ResultManifest) {
    && ResultIdentityOk(m)
    && (|| (m.status == "SUCCESS" && m.errorMessage == [] && m.outputs != [])
        || (m.status == "FAILED" && !BlankBytes(m.errorMessage)))
    && ArtifactsOk(m.outputs, OUTPUTS, false)
    && (forall i :: 0 <= i < |m.outputs| ==> OutputPathOk(m.outputs[i]))
    && Count(m.outputs, "built_apk") == (if m.status == "SUCCESS" then 1 else 0)
    && Count(m.outputs, "build_log") <= 1
  }

  method ValidateResultManifest(m: ResultManifest) returns (ok: bool)
    ensures ok <==> ResultManifestOk(m)
  {
    hide TrimSpace, IsIdentifier, IsSha256, Size, BlankBytes, ArtifactsOk;
    if m.schemaVersion != SCHEMA_VERSION || !IsIdentifier(m.packageCode) || !IsIdentifier(m.nonce)
       || m.tenantId <= 0 || m.agentId <= 0 || m.taskId <= 0 || m.attempt <= 0 || m.builtAt <= 0
       || TrimSpace(m.serial) == "" || Size(m.serial) > 128 || !IsSha256(m.exportSha256)
       || |m.errorMessage| > 2000 || 0x00 in m.errorMessage || 0x0D in m.errorMessage {
      return false;
    }
    if m.status == "SUCCESS" {
      if m.errorMessage != [] || |m.outputs| == 0 {
        return false;
      }
    } else if m.status == "FAILED" {
      if BlankBytes(m.errorMessage) {
        return false;
      }
    } else {
      return false;
    }
    var artifacts := ValidateArtifacts(m.outputs, "outputs/", false);
    if !artifacts {
      return false;
    }
    var supported, counts := CountRoles(m.outputs, (a: Artifact) =>
      match a.role case "built_apk" => a.path == "outputs/built.apk" case "build_log" => a.path == "outputs/build.log" case _ => false);
    return supported
        && !(CountIn(counts, "built_apk") > 1 || CountIn(counts, "build_log") > 1
             || (m.status == "SUCCESS" && CountIn(counts, "built_apk") != 1)
             || (m.status == "FAILED" && CountIn(counts, "built_apk") != 0));
  }

  // ----------------------------------------------------------------- decoding

  predicate SignatureOk(s: Signature, lib: Library) {
    && s.algorithm == SIGNATURE_ALGORITHM && s.value != "" && Size(s.value) <= 256
    && lib.base64(s.value).Some? && 8 <= lib.base64(s.value).value <= 80
  }

  predicate SizeOk(data: Bytes) { 0 < |data| <= MAX_MANIFEST_BYTES }

  /** The accepted task envelopes: strict JSON that encodes back to the very same bytes. */
  function DecodeTaskEnvelope(data: Bytes, lib: Library): (r: Option<TaskEnvelope>)
    ensures r.Some? ==> lib.encodeTask(r.value) == data && TaskManifestOk(r.value.manifest, lib)
  {
    var e := lib.decodeTask(data);
    if SizeOk(data) && e.Some? && lib.encodeTask(e.value) == data
       && TaskManifestOk(e.value.manifest, lib) && SignatureOk(e.value.signature, lib)
    then e else None
  }

  function DecodeResultEnvelope(data: Bytes, lib: Library): (r: Option<ResultEnvelope>)
    ensures r.Some? ==> lib.encodeResult(r.value) == data && ResultManifestOk(r.value.manifest)
  {
    var e := lib.decodeResult(data);
    if SizeOk(data) && e.Some? && lib.encodeResult(e.value) == data
       && TrimSpace(e.value.certificatePem) != "" && Size(e.value.certificatePem) <= 32 * 1024
       && ResultManifestOk(e.value.manifest) && SignatureOk(e.value.signature, lib)
    then e else None
  }

  method ValidateSignature(s: Signature, lib: Library) returns (ok: bool)
    ensures ok <==> SignatureOk(s, lib)
  {
    if s.algorithm != "ECDSA_P256_SHA256" || s.value == "" || Size(s.value) > 256 {
      return false;
    }
    var der := lib.base64(s.value);
    return !(der.None? || der.value < 8 || der.value > 80);
  }

  /** DecodeTaskEnvelope, step by step: size, strict JSON, canonical form, manifest, signature. */
  method DecodeTask(data: Bytes, lib: Library) returns (r: Option<TaskEnvelope>)
    ensures r == DecodeTaskEnvelope(data, lib)
  {
    hide TaskManifestOk, SignatureOk;
    if |data| == 0 || |data| > 2 * 1024 * 1024 {
      return None;
    }
    var e := lib.decodeTask(data);
    if e.None? || lib.encodeTask(e.value) != data {
      return None;
    }
    var valid := ValidateTaskManifest(e.value.manifest, lib);
    if !valid {
      return None;
    }
    var signed := ValidateSignature(e.value.signature, lib);
    return if signed then e else None;
  }

  method DecodeResult(data: Bytes, lib: Library) returns (r: Option<ResultEnvelope>)
    ensures r == DecodeResultEnvelope(data, lib)
  {
    hide ResultManifestOk, SignatureOk, TrimSpace, Size;
    if |data| == 0 || |data| > 2 * 1024 * 1024 {
      return None;
    }
    var e := lib.decodeResult(data);
    if e.None? || lib.encodeResult(e.value) != data {
      return None;
    }
    if TrimSpace(e.value.certificatePem) == "" || Size(e.value.certificatePem) > 32 * 1024 {
      return None;
    }
    var valid := ValidateResultManifest(e.value.manifest);
    if !valid {
      return None;
    }
    var signed := ValidateSignature(e.value.signature, lib);
    return if signed then e else None;
  }

  /** With distinct roles the cardinality check only adds that there is a keystore. */
  lemma {:induction false} DistinctRolesCount(items: seq<Artifact>, role: string)
    requires forall i, j :: 0 <= i < j < |items| ==> !(items[i].role == role && items[j].role == role)
    ensures Count(items, role) <= 1
    ensures Count(items, role) == 1 <==> exists i :: 0 <= i < |items| && items[i].role == role
  {
    if items != [] {
      DistinctRolesCount(items[..|items| - 1], role);
      assert forall i :: 0 <= i < |items| - 1 ==> items[..|items| - 1][i] == items[i];
    }
  }
}
