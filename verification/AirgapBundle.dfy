/** Matching the signed build bundle of an AIR_GAPPED task against the packaged inputs. */
module AirgapBundle {
  import opened Text
  import opened Sorting
  import opened AirgapManifest

  const PROTOCOL_VERSION := 3

  datatype TaskRef = TaskRef(id: int, tenantId: int, attempt: int)

  datatype BuildInput = BuildInput(
    role: string, objectId: Int64, objectType: int, originalName: string, contentType: string,
    sizeBytes: Int64, sha256: string, storageMode: int, ownerAgentId: int,
    localPath: string, downloadPath: string, customerReference: string)

  datatype BundleHead = BundleHead(schemaVersion: int, task: Option<TaskRef>, signingSecretRef: string, blockedReason: string)

  /** The bundle is of this protocol, complete, not blocked, and belongs to the manifest's task. */
  predicate HeadOk(b: BundleHead, inputs: nat, m: TaskManifest) {
    && b.schemaVersion == 3 && TrimSpace(b.signingSecretRef) != "" && b.blockedReason == ""
    && b.task == Some(TaskRef(m.taskId, m.tenantId, m.attempt)) && inputs == |m.inputs|
  }

  /** The fields on which a bundle input and a packaged artifact must agree. */
  datatype Face = Face(role: string, objectId: Int64, objectType: int, originalName: string,
                       contentType: string, sizeBytes: Int64, sha256: string)

  function InputFace(i: BuildInput): Face {
    Face(i.role, i.objectId, i.objectType, i.originalName, i.contentType, i.sizeBytes, i.sha256)
  }

  function ArtifactFace(a: Artifact): Face {
    Face(a.role, a.objectId, a.objectType, a.originalName, a.contentType, a.sizeBytes, a.sha256)
  }

  function InputFaces(inputs: seq<BuildInput>): seq<Face> {
    seq(|inputs|, i requires 0 <= i < |inputs| => InputFace(inputs[i]))
  }

  function ArtifactFaces(artifacts: seq<Artifact>): seq<Face> {
    seq(|artifacts|, i requires 0 <= i < |artifacts| => ArtifactFace(artifacts[i]))
  }

  /** The map key "role:id". */
  function Identity(role: string, objectId: int): string {
    role + ":" + Itoa(objectId)
  }

  /** A role may itself contain colons, but the key still determines role and id. */
  lemma {:induction false} IdentityInjective(r1: string, n1: int, r2: string, n2: int)
    requires Identity(r1, n1) == Identity(r2, n2)
    ensures r1 == r2 && n1 == n2
  {
    ItoaShape(n1);
    ItoaShape(n2);
    LastSeparatorUnique(r1, Itoa(n1), r2, Itoa(n2), ':');
    ItoaInjective(n1, n2);
  }

  function ArtifactId(a: Artifact): string { Identity(a.role, a.objectId) }
  function InputId(i: BuildInput): string { Identity(i.role, i.objectId) }

  function Ids(artifacts: seq<Artifact>): seq<string> {
    seq(|artifacts|, i requires 0 <= i < |artifacts| => ArtifactId(artifacts[i]))
  }

  /** One-to-one: no identity is declared twice, and the inputs are the artifacts, rearranged. */
  ghost predicate OneToOne(inputs: seq<BuildInput>, artifacts: seq<Artifact>) {
    Distinct(Ids(artifacts)) && multiset(InputFaces(inputs)) == multiset(ArtifactFaces(artifacts))
  }

  function ById(artifacts: seq<Artifact>): map<string, Artifact> {
    if artifacts == [] then map[]
    else ById(artifacts[..|artifacts| - 1])[ArtifactId(artifacts[|artifacts| - 1]) := artifacts[|artifacts| - 1]]
  }

  lemma {:induction false} ByIdKeys(artifacts: seq<Artifact>)
    ensures forall k :: k in ById(artifacts) <==> k in Ids(artifacts)
    ensures forall k :: k in ById(artifacts) ==> ById(artifacts)[k] in artifacts && ArtifactId(ById(artifacts)[k]) == k
  {
    hide Identity;
    if artifacts != [] {
      var front := artifacts[..|artifacts| - 1];
      ByIdKeys(front);
      assert artifacts == front + [artifacts[|front|]];
      assert Ids(artifacts) == Ids(front) + [ArtifactId(artifacts[|front|])];
    }
  }

  /** Pigeonhole: the map holds one entry per artifact exactly when the identities are distinct. */
  lemma {:induction false} ByIdCount(artifacts: seq<Artifact>)
    ensures |ById(artifacts)| <= |artifacts|
    ensures |ById(artifacts)| == |artifacts| <==> Distinct(Ids(artifacts))
  {
    hide Identity, ArtifactId;
    if artifacts != [] {
      var front, a := artifacts[..|artifacts| - 1], artifacts[|artifacts| - 1];
      var ids := Ids(artifacts);
      ByIdCount(front);
      ByIdKeys(front);
      assert ids == Ids(front) + [ArtifactId(a)];
      assert ById(artifacts).Keys == ById(front).Keys + {ArtifactId(a)};
      DistinctSnoc(Ids(front), ArtifactId(a));
    }
  }

  lemma {:induction false} DistinctSnoc(front: seq<string>, x: string)
    ensures Distinct(front + [x]) <==> Distinct(front) && x !in front
  {
    var all := front + [x];
    if Distinct(all) {
      assert forall i :: 0 <= i < |front| ==> front[i] == all[i] != all[|front|];
      assert forall i, j :: 0 <= i < j < |front| ==> front[i] == all[i] && front[j] == all[j];
    }
  }

  /** The input now reads its file from `path`, and its remote source is gone. */
  predicate ReadsLocally(now: BuildInput, was: BuildInput, path: string) {
    && InputFace(now) == InputFace(was) && now.localPath == path
    && now.downloadPath == "" && now.customerReference == "" && now.storageMode == 0 && now.ownerAgentId == 0
  }

  /** The input was rewritten to read the extracted file of the artifact it agrees with. */
  ghost predicate PointsAtOwnFile(now: BuildInput, was: BuildInput, artifacts: seq<Artifact>, paths: map<string, string>) {
    exists a :: a in artifacts && ArtifactFace(a) == InputFace(was)
                && ReadsLocally(now, was, if a.path in paths then paths[a.path] else "")
  }

  predicate Agrees(i: BuildInput, a: Artifact) {
    && i.objectType == a.objectType && i.originalName == a.originalName && i.contentType == a.contentType
    && i.sizeBytes == a.sizeBytes && i.sha256 == a.sha256
  }

  /** The identities of the first `n` inputs. */
  ghost function Used(was: seq<BuildInput>, n: nat): set<string>
    requires n <= |was|
  {
    if n == 0 then {} else Used(was, n - 1) + {InputId(was[n - 1])}
  }

  /** The first `n` inputs have each removed their own artifact from the map. */
  ghost predicate Matched(was: seq<BuildInput>, n: nat, artifacts: seq<Artifact>, left: map<string, Artifact>)
    requires n <= |was|
  {
    && left == ById(artifacts) - Used(was, n)
    && |Used(was, n)| == n && Used(was, n) <= ById(artifacts).Keys
    && (forall i :: 0 <= i < n ==> Paired(was[i], artifacts))
  }

  ghost predicate Paired(i: BuildInput, artifacts: seq<Artifact>) {
    InputId(i) in ById(artifacts) && InputFace(i) == ArtifactFace(ById(artifacts)[InputId(i)])
  }

  lemma {:induction false} UsedMembers(was: seq<BuildInput>, n: nat)
    requires n <= |was|
    ensures forall k :: k in Used(was, n) ==> exists i :: 0 <= i < n && InputId(was[i]) == k
    ensures forall i :: 0 <= i < n ==> InputId(was[i]) in Used(was, n)
  {
    hide InputId;
    if n > 0 {
      UsedMembers(was, n - 1);
    }
  }

  lemma {:induction false} UsedDistinct(was: seq<BuildInput>, n: nat)
    requires n <= |was|
    ensures |Used(was, n)| <= n
    ensures |Used(was, n)| == n ==> forall i, j :: 0 <= i < j < n ==> InputId(was[i]) != InputId(was[j])
  {
    hide InputId;
    if n > 0 {
      var before, last := Used(was, n - 1), InputId(was[n - 1]);
      UsedDistinct(was, n - 1);
      OneMoreElement(before, last);
      if |Used(was, n)| == n {
        UsedMembers(was, n - 1);
        forall i, j | 0 <= i < j < n ensures InputId(was[i]) != InputId(was[j]) {
          assert j == n - 1 ==> InputId(was[i]) in before;
        }
      }
    }
  }

  lemma {:induction false} OneMoreElement(s: set<string>, x: string)
    ensures |s + {x}| == if x in s then |s| else |s| + 1
  {
    if x in s {
      assert s + {x} == s;
    }
  }

  lemma {:induction false} AgreeingFaces(i: BuildInput, a: Artifact)
    requires InputId(i) == ArtifactId(a) && Agrees(i, a)
    ensures InputFace(i) == ArtifactFace(a)
  {
    hide Identity;
    IdentityInjective(i.role, i.objectId, a.role, a.objectId);
  }

  lemma {:induction false} MatchOne(was: seq<BuildInput>, n: nat, artifacts: seq<Artifact>, left: map<string, Artifact>)
    requires n < |was| && Matched(was, n, artifacts, left)
    requires InputId(was[n]) in left && Agrees(was[n], left[InputId(was[n])])
    ensures Matched(was, n + 1, artifacts, left - {InputId(was[n])})
    ensures InputFace(was[n]) == ArtifactFace(left[InputId(was[n])])
  {
    hide InputId, ArtifactId, InputFace, ArtifactFace, ById, Agrees;
    ByIdKeys(artifacts);
    AgreeingFaces(was[n], left[InputId(was[n])]);
    assert Used(was, n + 1) == Used(was, n) + {InputId(was[n])};
  }

  lemma {:induction false} FacesDistinct(artifacts: seq<Artifact>)
    requires Distinct(Ids(artifacts))
    ensures Distinct(ArtifactFaces(artifacts))
  {
    hide Identity;
    forall i, j | 0 <= i < j < |artifacts| ensures ArtifactFaces(artifacts)[i] != ArtifactFaces(artifacts)[j] {
      assert Ids(artifacts)[i] != Ids(artifacts)[j];
    }
  }

  lemma {:induction false} InputFacesDistinct(was: seq<BuildInput>)
    requires forall i, j :: 0 <= i < j < |was| ==> InputId(was[i]) != InputId(was[j])
    ensures Distinct(InputFaces(was))
  {
    hide Identity;
    forall i, j | 0 <= i < j < |was| ensures InputFaces(was)[i] != InputFaces(was)[j] {
      assert InputId(was[i]) != InputId(was[j]);
    }
  }

  /** When every input is matched and the map is empty, the correspondence is one to one. */
  lemma {:induction false} AllMatched(was: seq<BuildInput>, artifacts: seq<Artifact>)
    requires |was| == |artifacts| && Matched(was, |was|, artifacts, map[])
    ensures OneToOne(was, artifacts)
  {
    hide InputId, ArtifactId, InputFace, ArtifactFace, ById, Distinct, Used;
    UsedMembers(was, |was|);
    UsedDistinct(was, |was|);
    ByIdKeys(artifacts);
    var left: map<string, Artifact> := map[];
    assert left == ById(artifacts) - Used(was, |was|) && left.Keys == {};
    assert left.Keys == ById(artifacts).Keys - Used(was, |was|);
    forall k | k in ById(artifacts) ensures k in Used(was, |was|) {
      assert k !in left.Keys;
    }
    assert ById(artifacts).Keys == Used(was, |was|);
    ByIdCount(artifacts);
    FacesDistinct(artifacts);
    InputFacesDistinct(was);
    var inputFaces, artifactFaces := InputFaces(was), ArtifactFaces(artifacts);
    forall f | f in inputFaces ensures f in artifactFaces {
      var i :| 0 <= i < |was| && inputFaces[i] == f;
      assert Paired(was[i], artifacts);
      var k :| 0 <= k < |artifacts| && artifacts[k] == ById(artifacts)[InputId(was[i])];
      assert artifactFaces[k] == f;
    }
    forall f | f in artifactFaces ensures f in inputFaces {
      var k :| 0 <= k < |artifacts| && artifactFaces[k] == f;
      OwnEntry(artifacts, k);
      var i :| 0 <= i < |was| && InputId(was[i]) == ArtifactId(artifacts[k]);
      assert Paired(was[i], artifacts);
      assert inputFaces[i] == f;
    }
    DistinctPermutation(inputFaces, artifactFaces);
  }

  /** With distinct identities each artifact is the map's entry for its own identity. */
  lemma {:induction false} OwnEntry(artifacts: seq<Artifact>, k: nat)
    requires k < |artifacts| && Distinct(Ids(artifacts))
    ensures ArtifactId(artifacts[k]) in ById(artifacts) && ById(artifacts)[ArtifactId(artifacts[k])] == artifacts[k]
  {
    hide ArtifactId, ById;
    ByIdKeys(artifacts);
    var ids := Ids(artifacts);
    assert ids[k] == ArtifactId(artifacts[k]);
    var l :| 0 <= l < |artifacts| && artifacts[l] == ById(artifacts)[ids[k]];
    assert ids[l] == ids[k];
  }

  lemma {:induction false} SameFaceSameIdentity(i: BuildInput, a: Artifact)
    requires InputFace(i) == ArtifactFace(a)
    ensures InputId(i) == ArtifactId(a) && Agrees(i, a)
  {
    hide Identity;
  }

  /** Under a one-to-one correspondence no turn of the loop can fail. */
  lemma {:induction false} NextMatches(was: seq<BuildInput>, n: nat, artifacts: seq<Artifact>, left: map<string, Artifact>)
    requires n < |was| && OneToOne(was, artifacts) && Matched(was, n, artifacts, left)
    ensures InputId(was[n]) in left && Agrees(was[n], left[InputId(was[n])])
  {
    hide InputId, ArtifactId, InputFace, ArtifactFace, ById, Agrees, Used;
    var inputFaces, artifactFaces := InputFaces(was), ArtifactFaces(artifacts);
    assert inputFaces[n] in multiset(artifactFaces);
    var k :| 0 <= k < |artifacts| && artifactFaces[k] == inputFaces[n];
    SameFaceSameIdentity(was[n], artifacts[k]);
    OwnEntry(artifacts, k);
    FacesDistinct(artifacts);
    PermutationDistinct(artifactFaces, inputFaces);
    forall i | 0 <= i < n ensures InputId(was[i]) != InputId(was[n]) {
      assert inputFaces[i] != inputFaces[n] && Paired(was[i], artifacts);
    }
    UsedMembers(was, n);
  }

  /** Matches the bundle's inputs in place: accepts exactly the one-to-one correspondences, and
      then every input points at the extracted file of its own artifact. */
  method MatchInputs(inputs: array<BuildInput>, artifacts: seq<Artifact>, paths: map<string, string>) returns (ok: bool)
    requires inputs.Length == |artifacts|
    modifies inputs
    ensures ok <==> OneToOne(old(inputs[..]), artifacts)
    ensures ok ==> forall i :: 0 <= i < inputs.Length ==>
              PointsAtOwnFile(inputs[i], old(inputs[i]), artifacts, paths)
  {
    hide Identity, Agrees, OneToOne, Matched;
    ghost var was := inputs[..];
    var byIdentity: map<string, Artifact> := map[];
    for i := 0 to |artifacts|
      invariant byIdentity == ById(artifacts[..i])
      invariant inputs[..] == was
    {
      assert artifacts[..i + 1][..i] == artifacts[..i];
      byIdentity := byIdentity[ArtifactId(artifacts[i]) := artifacts[i]];
    }
    assert artifacts[..|artifacts|] == artifacts;
    NothingMatched(was, artifacts);
    for n := 0 to inputs.Length
      invariant Matched(was, n, artifacts, byIdentity)
      invariant forall i :: n <= i < inputs.Length ==> inputs[i] == was[i]
      invariant forall i :: 0 <= i < n ==> PointsAtOwnFile(inputs[i], was[i], artifacts, paths)
    {
      var input := inputs[n];
      var id := InputId(input);
      if OneToOne(was, artifacts) {
        NextMatches(was, n, artifacts, byIdentity);
      }
      if id !in byIdentity || !Agrees(input, byIdentity[id]) {
        return false;
      }
      MatchOne(was, n, artifacts, byIdentity);
      LeftIsDeclared(was, n, artifacts, byIdentity, id);
      var path := if byIdentity[id].path in paths then paths[byIdentity[id].path] else "";
      inputs[n] := input.(localPath := path, downloadPath := "", customerReference := "", storageMode := 0, ownerAgentId := 0);
      byIdentity := byIdentity - {id};
    }
    MapEmptiness(was, artifacts, byIdentity);
    return |byIdentity| == 0;
  }

  lemma {:induction false} NothingMatched(was: seq<BuildInput>, artifacts: seq<Artifact>)
    ensures Matched(was, 0, artifacts, ById(artifacts))
  {
  }

  lemma {:induction false} LeftIsDeclared(was: seq<BuildInput>, n: nat, artifacts: seq<Artifact>, left: map<string, Artifact>, k: string)
    requires n <= |was| && Matched(was, n, artifacts, left) && k in left
    ensures left[k] in artifacts
  {
    ByIdKeys(artifacts);
    ByIdCount(artifacts);
  }

  /** After all turns, an empty map is the same as a one-to-one correspondence. */
  lemma {:induction false} MapEmptiness(was: seq<BuildInput>, artifacts: seq<Artifact>, left: map<string, Artifact>)
    requires |was| == |artifacts| && Matched(was, |was|, artifacts, left)
    ensures |left| == 0 <==> OneToOne(was, artifacts)
  {
    hide InputId, ArtifactId, InputFace, ArtifactFace, ById;
    ByIdCount(artifacts);
    if |left| == 0 {
      assert left == map[];
      AllMatched(was, artifacts);
    }
  }

  /** decodeAirGappedBuildBundle after JSON decoding. */
  method DecodeBuildBundle(head: BundleHead, inputs: array<BuildInput>, m: TaskManifest, paths: map<string, string>) returns (ok: bool)
    modifies inputs
    ensures ok <==> HeadOk(head, inputs.Length, m) && OneToOne(old(inputs[..]), m.inputs)
    ensures ok ==> forall i :: 0 <= i < inputs.Length ==>
              PointsAtOwnFile(inputs[i], old(inputs[i]), m.inputs, paths)
  {
    hide OneToOne, TrimSpace;
    if head.schemaVersion != PROTOCOL_VERSION || head.task.None? || TrimSpace(head.signingSecretRef) == ""
       || inputs.Length != |m.inputs| || head.blockedReason != "" || head.task.value.id != m.taskId
       || head.task.value.tenantId != m.tenantId || head.task.value.attempt != m.attempt {
      return false;
    }
    ok := MatchInputs(inputs, m.inputs, paths);
  }

  /** A manifest that declares one identity twice is rejected, whatever the bundle says. */
  lemma {:induction false} DuplicateIdentityIsRejected(inputs: seq<BuildInput>, artifacts: seq<Artifact>, i: nat, j: nat)
    requires i < j < |artifacts|
    requires artifacts[i].role == artifacts[j].role && artifacts[i].objectId == artifacts[j].objectId
    ensures !OneToOne(inputs, artifacts)
  {
    assert ArtifactId(artifacts[i]) == ArtifactId(artifacts[j]);
    var ids := Ids(artifacts);
    assert 0 <= i < j < |ids| && ids[i] == ids[j];
    assert !Distinct(ids);
  }

  /** One-to-one really pairs them off: both sides are free of repeats and have the same faces. */
  lemma {:induction false} PartnersAreUnique(inputs: seq<BuildInput>, artifacts: seq<Artifact>)
    requires OneToOne(inputs, artifacts)
    ensures |inputs| == |artifacts| && Distinct(InputFaces(inputs)) && Distinct(ArtifactFaces(artifacts))
    ensures forall f :: f in InputFaces(inputs) <==> f in ArtifactFaces(artifacts)
  {
    hide InputFace, ArtifactFace, ArtifactId;
    var inputFaces, artifactFaces := InputFaces(inputs), ArtifactFaces(artifacts);
    assert |inputFaces| == |multiset(inputFaces)| == |multiset(artifactFaces)| == |artifactFaces|;
    FacesDistinct(artifacts);
    PermutationDistinct(artifactFaces, inputFaces);
    assert forall f :: f in inputFaces <==> f in multiset(inputFaces);
    assert forall f :: f in artifactFaces <==> f in multiset(artifactFaces);
  }
}
