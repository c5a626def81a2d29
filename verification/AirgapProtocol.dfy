/** The whole read of an AIR_GAPPED package, and how it relates to the write: soundness of an
    accepted package, independence of the entry order, and the round trip. */
module AirgapProtocol {
  import opened Text
  import opened Utf8
  import opened Paths
  import opened Sorting
  import opened AirgapManifest
  import opened AirgapPackage

  datatype Read<+E> = Read(envelope: Option<E>, log: seq<Delivery>)

  function OpenedManifest(size: int, entries: Option<seq<Entry>>, manifestName: string): Option<Bytes> {
    if entries.None? || !Openable(size, entries.value, manifestName) then None
    else
      ManifestIsIndexed(size, entries.value, manifestName);
      ReadManifest(Index(entries.value)[manifestName])
  }

  lemma {:induction false} ManifestIsIndexed(size: int, entries: seq<Entry>, manifestName: string)
    requires Openable(size, entries, manifestName)
    ensures manifestName in Index(entries)
  {
    IndexLookup(entries);
    var k :| 0 <= k < |entries| && Names(entries)[k] == manifestName;
    assert entries[k] in entries;
  }

  function ReadTask(size: int, entries: Option<seq<Entry>>, lib: Library, consumer: Consumer): Read<TaskEnvelope> {
    var manifest := OpenedManifest(size, entries, TASK_MANIFEST);
    if manifest.None? then Read(None, [])
    else
      var e := DecodeTaskEnvelope(manifest.value, lib);
      if e.None? then Read(None, [])
      else
        var c := Consume(Index(entries.value), TASK_MANIFEST, e.value.manifest.inputs, lib, consumer);
        Read(if c.ok then e else None, c.log)
  }

  function ReadResult(size: int, entries: Option<seq<Entry>>, lib: Library, consumer: Consumer): Read<ResultEnvelope> {
    var manifest := OpenedManifest(size, entries, RESULT_MANIFEST);
    if manifest.None? then Read(None, [])
    else
      var e := DecodeResultEnvelope(manifest.value, lib);
      if e.None? then Read(None, [])
      else
        var c := Consume(Index(entries.value), RESULT_MANIFEST, e.value.manifest.outputs, lib, consumer);
        Read(if c.ok then e else None, c.log)
  }

  method ReadTaskPackage(size: int, entries: Option<seq<Entry>>, lib: Library, consumer: Consumer) returns (r: Read<TaskEnvelope>)
    ensures r == ReadTask(size, entries, lib, consumer)
  {
    hide Openable, DecodeTaskEnvelope, Consume, ReadManifest, TaskManifestOk, Index;
    var files := OpenPackage(size, entries, TASK_MANIFEST);
    if files.None? {
      return Read(None, []);
    }
    ManifestIsIndexed(size, entries.value, TASK_MANIFEST);
    var manifest := ReadManifest(files.value[TASK_MANIFEST]);
    if manifest.None? {
      return Read(None, []);
    }
    var e := DecodeTask(manifest.value, lib);
    if e.None? {
      return Read(None, []);
    }
    var c := ConsumePackageArtifacts(files.value, TASK_MANIFEST, e.value.manifest.inputs, lib, consumer);
    return Read(if c.ok then e else None, c.log);
  }

  method ReadResultPackage(size: int, entries: Option<seq<Entry>>, lib: Library, consumer: Consumer) returns (r: Read<ResultEnvelope>)
    ensures r == ReadResult(size, entries, lib, consumer)
  {
    hide Openable, DecodeResultEnvelope, Consume, ReadManifest, ResultManifestOk, Index;
    var files := OpenPackage(size, entries, RESULT_MANIFEST);
    if files.None? {
      return Read(None, []);
    }
    ManifestIsIndexed(size, entries.value, RESULT_MANIFEST);
    var manifest := ReadManifest(files.value[RESULT_MANIFEST]);
    if manifest.None? {
      return Read(None, []);
    }
    var e := DecodeResult(manifest.value, lib);
    if e.None? {
      return Read(None, []);
    }
    var c := ConsumePackageArtifacts(files.value, RESULT_MANIFEST, e.value.manifest.outputs, lib, consumer);
    return Read(if c.ok then e else None, c.log);
  }

  // ------------------------------------------------------- soundness of reading

  function LoggedArtifacts(log: seq<Delivery>): seq<Artifact> {
    seq(|log|, i requires 0 <= i < |log| => log[i].artifact)
  }

  /** The consumer saw the whole stored file, and it is the declared one. */
  predicate ExactDelivery(d: Delivery, entries: seq<Entry>, lib: Library) {
    && |d.bytes| == d.artifact.sizeBytes && lib.sha256(d.bytes) == d.artifact.sha256
    && exists i :: 0 <= i < |entries| && entries[i].name == d.artifact.path && entries[i].data == d.bytes
  }

  /** What acceptance promises about the container, the declaration and the consumer. */
  ghost predicate FaithfulRead(entries: seq<Entry>, manifestName: string, artifacts: seq<Artifact>, log: seq<Delivery>, lib: Library) {
    && multiset(Names(entries)) == multiset([manifestName] + PathsOf(artifacts))
    && Distinct(Names(entries))
    && multiset(LoggedArtifacts(log)) == multiset(artifacts)
    && (forall i :: 0 <= i < |log| ==> ExactDelivery(log[i], entries, lib))
    && TrueTotal(artifacts) <= MAX_PACKAGE_BYTES
  }

  lemma {:induction false} TurnsSucceeded(entries: map<string, Entry>, manifestName: string, expected: map<string, Artifact>,
                         paths: seq<string>, lib: Library, consumer: Consumer)
    requires forall p :: p in paths ==> p in expected
    requires ConsumeEach(entries, manifestName, expected, paths, lib, consumer).ok
    ensures
      var log := ConsumeEach(entries, manifestName, expected, paths, lib, consumer).log;
      && |log| == |paths|
      && forall i :: 0 <= i < |paths| ==>
           var turn := Handle(entries, manifestName, expected[paths[i]], lib, consumer);
           turn.ok && turn.log == [log[i]]
  {
    hide Handle;
    if paths != [] {
      var front, p := paths[..|paths| - 1], paths[|paths| - 1];
      TurnsSucceeded(entries, manifestName, expected, front, lib, consumer);
      assert paths == front + [p];
      HandleLogs(entries, manifestName, expected[p], lib, consumer);
    }
  }

  lemma {:induction false} HandleLogs(entries: map<string, Entry>, manifestName: string, a: Artifact, lib: Library, consumer: Consumer)
    ensures Handle(entries, manifestName, a, lib, consumer).ok ==>
              |Handle(entries, manifestName, a, lib, consumer).log| == 1
              && Handle(entries, manifestName, a, lib, consumer).log[0].artifact == a
              && a.path in entries && entries[a.path].name != manifestName
  {
  }

  lemma {:induction false} HandledIsExact(entries: seq<Entry>, manifestName: string, a: Artifact, lib: Library, consumer: Consumer)
    requires Distinct(Names(entries)) && ZipSound(entries) && forall i :: 0 <= i < |entries| ==> SafeEntry(entries[i])
    requires a.sizeBytes > 0
    requires Handle(Index(entries), manifestName, a, lib, consumer).ok
    ensures ExactDelivery(Handle(Index(entries), manifestName, a, lib, consumer).log[0], entries, lib)
  {
    hide SafePath;
    IndexLookup(entries);
    var e := Index(entries)[a.path];
    var k :| 0 <= k < |entries| && entries[k] == e;
    assert SafeEntry(entries[k]);
    assert Limited(e, a) == e.data;
    assert entries[k].data == Handle(Index(entries), manifestName, a, lib, consumer).log[0].bytes;
  }

  lemma {:induction false} ConsumedIsFaithful(size: int, entries: seq<Entry>, manifestName: string, artifacts: seq<Artifact>,
                           lib: Library, consumer: Consumer)
    requires Openable(size, entries, manifestName) && ZipSound(entries)
    requires forall i :: 0 <= i < |artifacts| ==> artifacts[i].sizeBytes > 0
    requires Consume(Index(entries), manifestName, artifacts, lib, consumer).ok
    ensures FaithfulRead(entries, manifestName, artifacts, Consume(Index(entries), manifestName, artifacts, lib, consumer).log, lib)
  {
    hide Handle, SafeEntry, ExactDelivery;
    var index, expected, paths := Index(entries), ByPath(artifacts), Sort(PathsOf(artifacts));
    SortedPathsAreDeclared(artifacts);
    TurnsSucceeded(index, manifestName, expected, paths, lib, consumer);
    var log := Consume(index, manifestName, artifacts, lib, consumer).log;
    WrappingTotalIsExact(artifacts);
    ByPathLookup(artifacts);
    ByPathKeys(artifacts);
    SortSorts(PathsOf(artifacts));
    forall i | 0 <= i < |log| ensures ExactDelivery(log[i], entries, lib) && log[i].artifact == expected[paths[i]] {
      PathIsDeclared(artifacts, paths[i]);
      HandledIsExact(entries, manifestName, expected[paths[i]], lib, consumer);
      HandleLogs(index, manifestName, expected[paths[i]], lib, consumer);
    }
    assert |paths| == |multiset(paths)| == |multiset(PathsOf(artifacts))| == |artifacts|;
    LogIsPermutation(artifacts, log);
    DeclaredPathsAreIndexed(entries, manifestName, artifacts, lib, consumer);
    EntriesAreDeclared(size, entries, manifestName, artifacts);
  }

  lemma {:induction false} DeclaredPathsAreIndexed(entries: seq<Entry>, manifestName: string, artifacts: seq<Artifact>,
                                                   lib: Library, consumer: Consumer)
    requires Distinct(Names(entries)) && Distinct(PathsOf(artifacts))
    requires forall p :: p in Sort(PathsOf(artifacts)) ==>
               p in ByPath(artifacts) && Handle(Index(entries), manifestName, ByPath(artifacts)[p], lib, consumer).ok
    ensures forall p :: p in PathsOf(artifacts) ==> p in Index(entries) && p != manifestName
  {
    hide Handle, Sort, Index, Names, ByPath;
    SortSorts(PathsOf(artifacts));
    forall p | p in PathsOf(artifacts) ensures p in Index(entries) && p != manifestName {
      assert p in multiset(Sort(PathsOf(artifacts)));
      PathIsDeclared(artifacts, p);
      HandleLogs(Index(entries), manifestName, ByPath(artifacts)[p], lib, consumer);
      IndexLookup(entries);
    }
  }

  lemma {:induction false} PathIsDeclared(artifacts: seq<Artifact>, p: string)
    requires p in ByPath(artifacts) && Distinct(PathsOf(artifacts))
    ensures ByPath(artifacts)[p] in artifacts && ByPath(artifacts)[p].path == p
  {
    ByPathKeys(artifacts);
    ByPathLookup(artifacts);
    var k :| 0 <= k < |artifacts| && PathsOf(artifacts)[k] == p;
  }

  lemma {:induction false} LogIsPermutation(artifacts: seq<Artifact>, log: seq<Delivery>)
    requires Distinct(PathsOf(artifacts)) && |log| == |artifacts|
    requires forall p :: p in Sort(PathsOf(artifacts)) ==> p in ByPath(artifacts)
    requires |Sort(PathsOf(artifacts))| == |log|
    requires forall i :: 0 <= i < |log| ==> log[i].artifact == ByPath(artifacts)[Sort(PathsOf(artifacts))[i]]
    ensures multiset(LoggedArtifacts(log)) == multiset(artifacts)
  {
    hide Sort;
    var paths, logged := Sort(PathsOf(artifacts)), LoggedArtifacts(log);
    SortSorts(PathsOf(artifacts));
    PermutationDistinct(PathsOf(artifacts), paths);
    forall i, j | 0 <= i < j < |logged| ensures logged[i] != logged[j] {
      PathIsDeclared(artifacts, paths[i]);
      PathIsDeclared(artifacts, paths[j]);
    }
    forall i, j | 0 <= i < j < |artifacts| ensures artifacts[i] != artifacts[j] {
      assert PathsOf(artifacts)[i] != PathsOf(artifacts)[j];
    }
    forall a ensures a in logged <==> a in artifacts {
      if a in logged {
        var i :| 0 <= i < |logged| && logged[i] == a;
        PathIsDeclared(artifacts, paths[i]);
      }
      if a in artifacts {
        var k :| 0 <= k < |artifacts| && artifacts[k] == a;
        assert PathsOf(artifacts)[k] in multiset(paths);
        var i :| 0 <= i < |paths| && paths[i] == a.path;
        ByPathLookup(artifacts);
        assert logged[i] == a;
      }
    }
    DistinctPermutation(logged, artifacts);
  }

  /** Counting: the entries are the manifest and the declared paths, and nothing else. */
  lemma {:induction false} EntriesAreDeclared(size: int, entries: seq<Entry>, manifestName: string, artifacts: seq<Artifact>)
    requires Openable(size, entries, manifestName) && Distinct(PathsOf(artifacts))
    requires |Index(entries)| == |artifacts| + 1
    requires forall p :: p in PathsOf(artifacts) ==> p in Index(entries) && p != manifestName
    ensures multiset(Names(entries)) == multiset([manifestName] + PathsOf(artifacts))
  {
    hide SafeEntry;
    var declared := [manifestName] + PathsOf(artifacts);
    assert Distinct(declared);
    ManifestIsIndexed(size, entries, manifestName);
    var names := set p | p in declared;
    SetOfDistinct(declared);
    assert names <= Index(entries).Keys;
    SubsetOfEqualSize(names, Index(entries).Keys);
    IndexLookup(entries);
    forall p ensures p in Names(entries) <==> p in declared {
      if p in Names(entries) {
        var k :| 0 <= k < |entries| && Names(entries)[k] == p;
        assert entries[k] in entries;
      }
      if p in Index(entries) {
        var k :| 0 <= k < |entries| && entries[k] == Index(entries)[p];
        assert Names(entries)[k] == p;
      }
      assert p in names <==> p in declared;
    }
    DistinctPermutation(Names(entries), declared);
  }

  lemma {:induction false} SetOfDistinct<T>(s: seq<T>)
    requires Distinct(s)
    ensures |set x | x in s| == |s|
  {
    if s != [] {
      var front, x := s[..|s| - 1], s[|s| - 1];
      SetOfDistinct(front);
      assert s == front + [x];
      assert (set y | y in s) == (set y | y in front) + {x};
    }
  }

  lemma {:induction false} SubsetOfEqualSize<T>(a: set<T>, b: set<T>)
    requires a <= b && |a| == |b|
    ensures a == b
  {
    assert b == a + (b - a);
    assert |b| == |a| + |b - a|;
  }

  /** Acceptance of a task package: the entries are exactly the manifest and the declared inputs,
      every input reached the consumer once, in full, with its declared size and digest, and the
      true sum of sizes respects the limit. */
  lemma {:induction false} AcceptedTaskIsFaithful(size: int, entries: seq<Entry>, lib: Library, consumer: Consumer)
    requires ZipSound(entries) && ReadTask(size, Some(entries), lib, consumer).envelope.Some?
    ensures
      var r := ReadTask(size, Some(entries), lib, consumer);
      FaithfulRead(entries, TASK_MANIFEST, r.envelope.value.manifest.inputs, r.log, lib)
  {
    hide Consume, ReadManifest, SafeEntry, FaithfulRead, ArtifactOk, TaskIdentityOk, SignatureOk, RolesDistinct, Count;
    var inputs := ReadTask(size, Some(entries), lib, consumer).envelope.value.manifest.inputs;
    SizesArePositive(inputs, INPUTS, true);
    ConsumedIsFaithful(size, entries, TASK_MANIFEST, inputs, lib, consumer);
  }

  lemma {:induction false} AcceptedResultIsFaithful(size: int, entries: seq<Entry>, lib: Library, consumer: Consumer)
    requires ZipSound(entries) && ReadResult(size, Some(entries), lib, consumer).envelope.Some?
    ensures
      var r := ReadResult(size, Some(entries), lib, consumer);
      FaithfulRead(entries, RESULT_MANIFEST, r.envelope.value.manifest.outputs, r.log, lib)
  {
    hide Consume, ReadManifest, SafeEntry, FaithfulRead, ArtifactOk, ResultIdentityOk, SignatureOk, RolesDistinct, Count, TrimSpace, Size;
    var outputs := ReadResult(size, Some(entries), lib, consumer).envelope.value.manifest.outputs;
    SizesArePositive(outputs, OUTPUTS, false);
    ConsumedIsFaithful(size, entries, RESULT_MANIFEST, outputs, lib, consumer);
  }

  lemma {:induction false} SizesArePositive(items: seq<Artifact>, prefix: string, requireSource: bool)
    requires ArtifactsOk(items, prefix, requireSource)
    ensures forall i :: 0 <= i < |items| ==> items[i].sizeBytes > 0
  {
    hide TrimSpace, Size, Contains, ContainsAny, IsSha256, RolesDistinct;
    assert forall i :: 0 <= i < |items| ==> ArtifactOk(items[i], prefix);
  }

  // ------------------------------------------------- exactly what the reader accepts

  predicate SoundEntry(e: Entry) {
    && SafePath(e.name) && e.stored && e.regular && e.comment == "" && e.csize == e.usize <= 3 * 1024 * 1024 * 1024
  }

  predicate WellPacked(size: int, entries: seq<Entry>) {
    && 0 < size <= 3 * 1024 * 1024 * 1024 && 1 <= |entries| <= 260
    && (forall i :: 0 <= i < |entries| ==> SoundEntry(entries[i]))
    && forall i, j :: 0 <= i < j < |entries| ==> entries[i].name != entries[j].name
  }

  /** The entry opens and yields all of its bytes without an error, as many as its header says. */
  predicate Whole(e: Entry) { e.opens && e.sound && e.usize == |e.data| }

  ghost predicate HoldsManifest(entries: seq<Entry>, manifestName: string, manifest: Bytes) {
    0 < |manifest| <= 2 * 1024 * 1024
    && exists i :: 0 <= i < |entries| && entries[i].name == manifestName && Whole(entries[i]) && entries[i].data == manifest
  }

  /** The declared file is there in full, and the consumer takes all of it. */
  ghost predicate HandsOver(entries: seq<Entry>, a: Artifact, lib: Library, consumer: Consumer) {
    exists i :: 0 <= i < |entries| && entries[i].name == a.path && Whole(entries[i])
      && |entries[i].data| == a.sizeBytes && lib.sha256(entries[i].data) == a.sha256
      && consumer(a, entries[i].data).count >= |entries[i].data| && !consumer(a, entries[i].data).fails
  }

  /** The container holds this manifest and exactly the files it declares. */
  ghost predicate Acceptable(size: int, entries: seq<Entry>, manifestName: string, manifest: Bytes, artifacts: seq<Artifact>,
                             lib: Library, consumer: Consumer) {
    && WellPacked(size, entries) && HoldsManifest(entries, manifestName, manifest)
    && multiset(Names(entries)) == multiset([manifestName] + PathsOf(artifacts))
    && TrueTotal(artifacts) <= 3 * 1024 * 1024 * 1024
    && forall i :: 0 <= i < |artifacts| ==> HandsOver(entries, artifacts[i], lib, consumer)
  }

  lemma {:induction false} ManifestIsWhole(e: Entry, manifest: Bytes)
    requires |e.data| <= e.usize
    ensures ReadManifest(e) == Some(manifest) <==> Whole(e) && e.data == manifest && 0 < |manifest| <= 2 * 1024 * 1024
  {
  }

  lemma {:induction false} NamesDistinct(entries: seq<Entry>)
    ensures Distinct(Names(entries)) <==> forall i, j :: 0 <= i < j < |entries| ==> entries[i].name != entries[j].name
  {
    assert forall i :: 0 <= i < |entries| ==> Names(entries)[i] == entries[i].name;
  }

  lemma {:induction false} OpenedExactly(size: int, entries: seq<Entry>, manifestName: string, manifest: Bytes)
    requires ZipSound(entries)
    ensures OpenedManifest(size, Some(entries), manifestName) == Some(manifest) <==>
            WellPacked(size, entries) && HoldsManifest(entries, manifestName, manifest)
  {
    hide SafePath, ReadManifest, Index, Distinct, Names;
    NamesDistinct(entries);
    forall i | 0 <= i < |entries| ensures SafeEntry(entries[i]) <==> SoundEntry(entries[i]) {
    }
    NamesHold(entries, manifestName);
    if Openable(size, entries, manifestName) {
      IndexLookup(entries);
      ManifestIsIndexed(size, entries, manifestName);
      var e := Index(entries)[manifestName];
      var k :| 0 <= k < |entries| && entries[k] == e;
      ManifestIsWhole(e, manifest);
      forall i | 0 <= i < |entries| && entries[i].name == manifestName ensures entries[i] == e {
      }
    }
  }

  lemma {:induction false} NamesHold(entries: seq<Entry>, name: string)
    ensures name in Names(entries) <==> exists i :: 0 <= i < |entries| && entries[i].name == name
  {
    assert forall i :: 0 <= i < |entries| ==> Names(entries)[i] == entries[i].name;
  }

  lemma {:induction false} HandledExactly(entries: seq<Entry>, manifestName: string, a: Artifact, lib: Library, consumer: Consumer)
    requires Distinct(Names(entries)) && ZipSound(entries) && forall i :: 0 <= i < |entries| ==> SafeEntry(entries[i])
    requires a.sizeBytes > 0
    ensures Handle(Index(entries), manifestName, a, lib, consumer).ok <==> a.path != manifestName && HandsOver(entries, a, lib, consumer)
  {
    hide SafePath, Distinct, Names, Index;
    IndexLookup(entries);
    NamesDistinct(entries);
    if a.path in Index(entries) {
      var e := Index(entries)[a.path];
      var k :| 0 <= k < |entries| && entries[k] == e;
      assert SafeEntry(entries[k]);
      if e.usize == a.sizeBytes {
        assert Limited(e, a) == e.data && e.data[..|e.data|] == e.data;
      }
    }
    forall i | 0 <= i < |entries| && entries[i].name == a.path ensures a.path in Index(entries) && Index(entries)[a.path] == entries[i] {
      assert entries[i] in entries;
    }
  }

  lemma {:induction false} AllTurnsSucceed(entries: map<string, Entry>, manifestName: string, expected: map<string, Artifact>,
                                           paths: seq<string>, lib: Library, consumer: Consumer)
    requires forall p :: p in paths ==> p in expected && Handle(entries, manifestName, expected[p], lib, consumer).ok
    ensures ConsumeEach(entries, manifestName, expected, paths, lib, consumer).ok
  {
    hide Handle;
    if paths != [] {
      var front := paths[..|paths| - 1];
      assert forall p :: p in front ==> p in paths;
      assert paths[|paths| - 1] in paths;
      AllTurnsSucceed(entries, manifestName, expected, front, lib, consumer);
    }
  }

  lemma {:induction false} ConsumedExactly(size: int, entries: seq<Entry>, manifestName: string, artifacts: seq<Artifact>,
                                           lib: Library, consumer: Consumer)
    requires Openable(size, entries, manifestName) && ZipSound(entries)
    requires forall i :: 0 <= i < |artifacts| ==> artifacts[i].sizeBytes > 0
    ensures Consume(Index(entries), manifestName, artifacts, lib, consumer).ok <==>
            && multiset(Names(entries)) == multiset([manifestName] + PathsOf(artifacts))
            && TrueTotal(artifacts) <= 3 * 1024 * 1024 * 1024
            && forall i :: 0 <= i < |artifacts| ==> HandsOver(entries, artifacts[i], lib, consumer)
  {
    hide Handle, SafeEntry, HandsOver, Index;
    WrappingTotalIsExact(artifacts);
    if Consume(Index(entries), manifestName, artifacts, lib, consumer).ok {
      ConsumedIsFaithful(size, entries, manifestName, artifacts, lib, consumer);
      EveryTurnHandsOver(size, entries, manifestName, artifacts, lib, consumer);
    }
    if multiset(Names(entries)) == multiset([manifestName] + PathsOf(artifacts)) && TrueTotal(artifacts) <= MAX_PACKAGE_BYTES
       && forall i :: 0 <= i < |artifacts| ==> HandsOver(entries, artifacts[i], lib, consumer) {
      DeclaredAreConsumed(size, entries, manifestName, artifacts, lib, consumer);
    }
  }

  lemma {:induction false} EveryTurnHandsOver(size: int, entries: seq<Entry>, manifestName: string, artifacts: seq<Artifact>,
                                              lib: Library, consumer: Consumer)
    requires Openable(size, entries, manifestName) && ZipSound(entries)
    requires forall i :: 0 <= i < |artifacts| ==> artifacts[i].sizeBytes > 0
    requires Consume(Index(entries), manifestName, artifacts, lib, consumer).ok
    ensures forall i :: 0 <= i < |artifacts| ==> HandsOver(entries, artifacts[i], lib, consumer)
  {
    hide Handle, SafeEntry, HandsOver, Sort;
    var index, expected, paths := Index(entries), ByPath(artifacts), Sort(PathsOf(artifacts));
    SortedPathsAreDeclared(artifacts);
    TurnsSucceeded(index, manifestName, expected, paths, lib, consumer);
    SortSorts(PathsOf(artifacts));
    ByPathLookup(artifacts);
    forall i | 0 <= i < |artifacts| ensures HandsOver(entries, artifacts[i], lib, consumer) {
      assert PathsOf(artifacts)[i] in multiset(PathsOf(artifacts));
      assert artifacts[i].path in multiset(paths);
      var k :| 0 <= k < |paths| && paths[k] == artifacts[i].path;
      HandledExactly(entries, manifestName, artifacts[i], lib, consumer);
    }
  }

  lemma {:induction false} DeclaredAreConsumed(size: int, entries: seq<Entry>, manifestName: string, artifacts: seq<Artifact>,
                                               lib: Library, consumer: Consumer)
    requires Openable(size, entries, manifestName) && ZipSound(entries)
    requires forall i :: 0 <= i < |artifacts| ==> artifacts[i].sizeBytes > 0
    requires multiset(Names(entries)) == multiset([manifestName] + PathsOf(artifacts)) && TotalsAccepted(artifacts)
    requires forall i :: 0 <= i < |artifacts| ==> HandsOver(entries, artifacts[i], lib, consumer)
    ensures Consume(Index(entries), manifestName, artifacts, lib, consumer).ok
  {
    hide Handle, SafeEntry, HandsOver, Sort, TotalsAccepted, ByPath, Names, Index;
    DeclaredPathsAreDistinct(entries, manifestName, artifacts);
    IndexLookup(entries);
    SortedPathsAreDeclared(artifacts);
    var paths := Sort(PathsOf(artifacts));
    forall p | p in paths ensures Handle(Index(entries), manifestName, ByPath(artifacts)[p], lib, consumer).ok {
      PathIsDeclared(artifacts, p);
      var a := ByPath(artifacts)[p];
      var k :| 0 <= k < |artifacts| && artifacts[k] == a;
      assert PathsOf(artifacts)[k] == p;
      assert p in PathsOf(artifacts) && HandsOver(entries, artifacts[k], lib, consumer);
      HandledExactly(entries, manifestName, a, lib, consumer);
    }
    AllTurnsSucceed(Index(entries), manifestName, ByPath(artifacts), paths, lib, consumer);
  }

  lemma {:induction false} AcceptableExactly(size: int, entries: seq<Entry>, manifestName: string, manifest: Bytes, artifacts: seq<Artifact>,
                                             lib: Library, consumer: Consumer)
    requires ZipSound(entries) && forall i :: 0 <= i < |artifacts| ==> artifacts[i].sizeBytes > 0
    ensures Acceptable(size, entries, manifestName, manifest, artifacts, lib, consumer) <==>
            && OpenedManifest(size, Some(entries), manifestName) == Some(manifest)
            && Consume(Index(entries), manifestName, artifacts, lib, consumer).ok
  {
    hide Consume, OpenedManifest, WellPacked, HoldsManifest, HandsOver, Openable, Names, PathsOf, TrueTotal, Index;
    OpenedExactly(size, entries, manifestName, manifest);
    if OpenedManifest(size, Some(entries), manifestName) == Some(manifest) {
      OpenedIsOpenable(size, entries, manifestName);
      ConsumedExactly(size, entries, manifestName, artifacts, lib, consumer);
    }
  }

  lemma {:induction false} DeclaredPathsAreDistinct(entries: seq<Entry>, manifestName: string, artifacts: seq<Artifact>)
    requires Distinct(Names(entries)) && multiset(Names(entries)) == multiset([manifestName] + PathsOf(artifacts))
    ensures Distinct(PathsOf(artifacts)) && |entries| == |artifacts| + 1
    ensures forall p :: p in PathsOf(artifacts) ==> p != manifestName
  {
    hide Distinct, PathsOf, Names;
    NameCounts(entries, artifacts);
    var paths := PathsOf(artifacts);
    var declared := [manifestName] + paths;
    PermutationDistinct(Names(entries), declared);
    DistinctTail(manifestName, paths);
    assert |Names(entries)| == |multiset(Names(entries))| == |multiset(declared)| == |declared|;
  }

  lemma {:induction false} NameCounts(entries: seq<Entry>, artifacts: seq<Artifact>)
    ensures |Names(entries)| == |entries| && |PathsOf(artifacts)| == |artifacts|
  {
  }

  lemma {:induction false} DistinctTail(x: string, rest: seq<string>)
    requires Distinct([x] + rest)
    ensures Distinct(rest) && forall y :: y in rest ==> y != x
  {
    var all := [x] + rest;
    assert forall i :: 0 <= i < |rest| ==> all[i + 1] == rest[i] && all[0] != all[i + 1];
  }

  /** A task package is accepted, with a given envelope, exactly when its container is well packed,
      the manifest in it decodes to that envelope, the other entries are exactly the declared inputs,
      and each of them is there in full, has the declared size and digest, and is consumed. */
  lemma {:induction false} TaskAcceptedExactly(size: int, entries: seq<Entry>, e: TaskEnvelope, lib: Library, consumer: Consumer)
    requires ZipSound(entries)
    ensures ReadTask(size, Some(entries), lib, consumer).envelope == Some(e) <==>
            exists manifest ::
              DecodeTaskEnvelope(manifest, lib) == Some(e)
              && Acceptable(size, entries, "manifest.json", manifest, e.manifest.inputs, lib, consumer)
  {
    hide Consume, DecodeTaskEnvelope, OpenedManifest, Acceptable;
    forall manifest | DecodeTaskEnvelope(manifest, lib) == Some(e)
      ensures Acceptable(size, entries, TASK_MANIFEST, manifest, e.manifest.inputs, lib, consumer) <==>
              && OpenedManifest(size, Some(entries), TASK_MANIFEST) == Some(manifest)
              && Consume(Index(entries), TASK_MANIFEST, e.manifest.inputs, lib, consumer).ok
    {
      DecodedTaskSizes(manifest, lib);
      AcceptableExactly(size, entries, TASK_MANIFEST, manifest, e.manifest.inputs, lib, consumer);
    }
  }

  lemma {:induction false} OpenedIsOpenable(size: int, entries: seq<Entry>, manifestName: string)
    requires OpenedManifest(size, Some(entries), manifestName).Some?
    ensures Openable(size, entries, manifestName)
  {
    hide Openable, ReadManifest;
  }

  lemma {:induction false} DecodedTaskSizes(manifest: Bytes, lib: Library)
    requires DecodeTaskEnvelope(manifest, lib).Some?
    ensures var inputs := DecodeTaskEnvelope(manifest, lib).value.manifest.inputs;
            forall i :: 0 <= i < |inputs| ==> inputs[i].sizeBytes > 0
  {
    hide ArtifactOk, TaskIdentityOk, SignatureOk, RolesDistinct, Count;
    SizesArePositive(DecodeTaskEnvelope(manifest, lib).value.manifest.inputs, INPUTS, true);
  }

  lemma {:induction false} ResultAcceptedExactly(size: int, entries: seq<Entry>, e: ResultEnvelope, lib: Library, consumer: Consumer)
    requires ZipSound(entries)
    ensures ReadResult(size, Some(entries), lib, consumer).envelope == Some(e) <==>
            exists manifest ::
              DecodeResultEnvelope(manifest, lib) == Some(e)
              && Acceptable(size, entries, "result.json", manifest, e.manifest.outputs, lib, consumer)
  {
    hide Consume, DecodeResultEnvelope, OpenedManifest, Acceptable;
    forall manifest | DecodeResultEnvelope(manifest, lib) == Some(e)
      ensures Acceptable(size, entries, RESULT_MANIFEST, manifest, e.manifest.outputs, lib, consumer) <==>
              && OpenedManifest(size, Some(entries), RESULT_MANIFEST) == Some(manifest)
              && Consume(Index(entries), RESULT_MANIFEST, e.manifest.outputs, lib, consumer).ok
    {
      DecodedResultSizes(manifest, lib);
      AcceptableExactly(size, entries, RESULT_MANIFEST, manifest, e.manifest.outputs, lib, consumer);
    }
  }

  lemma {:induction false} DecodedResultSizes(manifest: Bytes, lib: Library)
    requires DecodeResultEnvelope(manifest, lib).Some?
    ensures var outputs := DecodeResultEnvelope(manifest, lib).value.manifest.outputs;
            forall i :: 0 <= i < |outputs| ==> outputs[i].sizeBytes > 0
  {
    hide ArtifactOk, ResultIdentityOk, SignatureOk, RolesDistinct, Count, TrimSpace, Size;
    SizesArePositive(DecodeResultEnvelope(manifest, lib).value.manifest.outputs, OUTPUTS, false);
  }

  // -------------------------------------------------- the entry order is irrelevant

  lemma {:induction false} SameEntriesDistinctNames(a: seq<Entry>, b: seq<Entry>)
    requires multiset(a) == multiset(b) && Distinct(Names(a))
    ensures Distinct(Names(b))
  {
    forall i, j | 0 <= i < j < |a| ensures a[i] != a[j] {
      assert Names(a)[i] != Names(a)[j];
    }
    PermutationDistinct(a, b);
    forall i, j | 0 <= i < j < |b| ensures Names(b)[i] != Names(b)[j] {
      assert b[i] in multiset(a) && b[j] in multiset(a) && b[i] != b[j];
      var k :| 0 <= k < |a| && a[k] == b[i];
      var l :| 0 <= l < |a| && a[l] == b[j];
      assert Names(a)[k] != Names(a)[l];
    }
  }

  lemma {:induction false} SameEntriesSameIndex(a: seq<Entry>, b: seq<Entry>)
    requires multiset(a) == multiset(b) && Distinct(Names(a))
    ensures Distinct(Names(b)) && Index(a) == Index(b)
  {
    hide Distinct, Names, Index;
    SameEntriesDistinctNames(a, b);
    IndexLookup(a);
    IndexLookup(b);
    assert forall e :: e in multiset(a) <==> e in a;
    assert forall e :: e in multiset(b) <==> e in b;
    assert forall n :: n in Index(a) ==> Index(a)[n] in b && n in Index(b) && Index(b)[n] == Index(a)[n];
    assert forall n :: n in Index(b) ==> Index(b)[n] in a && n in Index(a);
  }

  lemma {:induction false} SameEntriesSameOpening(size: int, a: seq<Entry>, b: seq<Entry>, manifestName: string)
    requires multiset(a) == multiset(b) && Openable(size, a, manifestName)
    ensures Openable(size, b, manifestName) && Index(a) == Index(b)
  {
    hide SafeEntry;
    SameEntriesSameIndex(a, b);
    assert |a| == |multiset(a)| == |multiset(b)| == |b|;
    forall i | 0 <= i < |b| ensures SafeEntry(b[i]) {
      assert b[i] in multiset(a);
    }
    ManifestIsIndexed(size, a, manifestName);
    IndexLookup(b);
    var k :| 0 <= k < |b| && b[k] == Index(b)[manifestName];
    assert Names(b)[k] == manifestName;
  }

  /** Reordering the ZIP entries changes neither the verdict nor what the consumer receives. */
  lemma {:induction false} EntryOrderIsIrrelevant(size: int, a: seq<Entry>, b: seq<Entry>, lib: Library, consumer: Consumer)
    requires multiset(a) == multiset(b)
    ensures ReadTask(size, Some(a), lib, consumer) == ReadTask(size, Some(b), lib, consumer)
    ensures ReadResult(size, Some(a), lib, consumer) == ReadResult(size, Some(b), lib, consumer)
  {
    hide Openable, Consume, DecodeTaskEnvelope, DecodeResultEnvelope;
    OpeningIgnoresOrder(size, a, b, TASK_MANIFEST);
    OpeningIgnoresOrder(size, a, b, RESULT_MANIFEST);
  }

  lemma {:induction false} OpeningIgnoresOrder(size: int, a: seq<Entry>, b: seq<Entry>, manifestName: string)
    requires multiset(a) == multiset(b)
    ensures Openable(size, a, manifestName) <==> Openable(size, b, manifestName)
    ensures Openable(size, a, manifestName) ==> Index(a) == Index(b)
  {
    hide Openable;
    if Openable(size, a, manifestName) {
      SameEntriesSameOpening(size, a, b, manifestName);
    }
    if Openable(size, b, manifestName) {
      SameEntriesSameOpening(size, b, a, manifestName);
    }
  }

  // --------------------------------------------------------------- round trip

  /** A consumer that does what its contract asks: it reads the whole stream and does not fail. */
  ghost predicate Complete(consumer: Consumer) {
    forall a, bytes :: consumer(a, bytes).count >= |bytes| && !consumer(a, bytes).fails
  }

  /** What the consumer must receive: each artifact's source bytes, in path order. */
  function SourceLog(artifacts: seq<Artifact>, open: Artifact -> Source, paths: seq<string>): seq<Delivery>
    requires forall p :: p in paths ==> p in ByPath(artifacts) && open(ByPath(artifacts)[p]).Opened?
  {
    seq(|paths|, i requires 0 <= i < |paths| =>
      Delivery(ByPath(artifacts)[paths[i]], open(ByPath(artifacts)[paths[i]]).data))
  }

  lemma {:induction false} WrittenEntryIsHandled(entries: map<string, Entry>, manifestName: string, a: Artifact, open: Artifact -> Source,
                              lib: Library, consumer: Consumer)
    requires a.sizeBytes > 0 && SourceMatches(a, open(a), lib) && Complete(consumer)
    requires a.path in entries && entries[a.path] == FileEntry(a.path, open(a).data) && a.path != manifestName
    ensures Handle(entries, manifestName, a, lib, consumer) == Consumption(true, [Delivery(a, open(a).data)])
  {
    var data := open(a).data;
    assert Limited(entries[a.path], a) == data;
    assert consumer(a, data).count >= |data|;
  }

  lemma {:induction false} WrittenEntriesAreConsumed(entries: map<string, Entry>, manifestName: string, artifacts: seq<Artifact>,
                                    paths: seq<string>, open: Artifact -> Source, lib: Library, consumer: Consumer)
    requires forall p :: p in paths ==> p in ByPath(artifacts) && open(ByPath(artifacts)[p]).Opened?
    requires forall p :: p in paths ==>
      Handle(entries, manifestName, ByPath(artifacts)[p], lib, consumer)
      == Consumption(true, [Delivery(ByPath(artifacts)[p], open(ByPath(artifacts)[p]).data)])
    ensures ConsumeEach(entries, manifestName, ByPath(artifacts), paths, lib, consumer)
         == Consumption(true, SourceLog(artifacts, open, paths))
  {
    hide Handle, ByPath;
    if paths != [] {
      var front := paths[..|paths| - 1];
      assert forall p :: p in front ==> p in paths;
      assert paths[|paths| - 1] in paths;
      WrittenEntriesAreConsumed(entries, manifestName, artifacts, front, open, lib, consumer);
      assert SourceLog(artifacts, open, paths)
          == SourceLog(artifacts, open, front)
             + [Delivery(ByPath(artifacts)[paths[|paths| - 1]], open(ByPath(artifacts)[paths[|paths| - 1]]).data)];
    }
  }

  ghost predicate ReaderLimits(size: int, artifacts: seq<Artifact>) {
    0 < size <= MAX_PACKAGE_BYTES && TrueTotal(artifacts) <= MAX_PACKAGE_BYTES
  }

  lemma {:induction false} EachWithinTotal(artifacts: seq<Artifact>, i: nat)
    requires i < |artifacts| && forall k :: 0 <= k < |artifacts| ==> artifacts[k].sizeBytes > 0
    ensures artifacts[i].sizeBytes <= TrueTotal(artifacts) && TrueTotal(artifacts) >= 0
  {
    var front := artifacts[..|artifacts| - 1];
    WrappingTotalIsExact(front);
    if i < |front| {
      EachWithinTotal(front, i);
    }
  }

  lemma {:induction false} WithinLimits(size: int, artifacts: seq<Artifact>)
    requires ReaderLimits(size, artifacts)
    ensures 0 < size <= MAX_PACKAGE_BYTES && TrueTotal(artifacts) <= MAX_PACKAGE_BYTES
  {
  }

  lemma {:induction false} WrittenEntryIsSafe(a: Artifact, source: Source, lib: Library)
    requires Writable(a, source, lib) && a.sizeBytes <= MAX_PACKAGE_BYTES
    ensures source.Opened? && SafeEntry(FileEntry(a.path, source.data))
  {
    hide SafePath, Size;
  }

  lemma {:induction false} ManifestEntryIsSafe(manifestName: string, manifest: Bytes)
    requires SafePath(manifestName) && |manifest| <= MAX_MANIFEST_BYTES
    ensures SafeEntry(FileEntry(manifestName, manifest))
  {
    hide SafePath;
  }

  lemma {:induction false} WrittenIsOpenable(size: int, manifestName: string, manifest: Bytes, artifacts: seq<Artifact>, prefix: string,
                          open: Artifact -> Source, lib: Library)
    requires AllWritable(artifacts, open, lib) && EachOk(artifacts, |artifacts|, prefix) && PathsDistinct(artifacts, |artifacts|)
    requires ReaderLimits(size, artifacts) && 0 < |manifest| <= MAX_MANIFEST_BYTES
    requires SafePath(manifestName) && !HasPrefix(manifestName, prefix)
    ensures Openable(size, [FileEntry(manifestName, manifest)] + EntriesFor(artifacts, open), manifestName)
    ensures Distinct(PathsOf(artifacts))
  {
    hide SafePath, ArtifactOk, Size, Writable, SafeEntry, ReaderLimits;
    WithinLimits(size, artifacts);
    SourcesOpened(artifacts, open, lib);
    var files := EntriesFor(artifacts, open);
    var entries := [FileEntry(manifestName, manifest)] + files;
    forall i | 0 <= i < |artifacts| ensures artifacts[i].sizeBytes > 0 && HasPrefix(artifacts[i].path, prefix) {
      PositiveAndPrefixed(artifacts[i], prefix);
    }
    forall i | 0 <= i < |entries| ensures SafeEntry(entries[i]) {
      if i > 0 {
        EachWithinTotal(artifacts, i - 1);
        WrittenEntryIsSafe(artifacts[i - 1], open(artifacts[i - 1]), lib);
      } else {
        ManifestEntryIsSafe(manifestName, manifest);
      }
    }
    assert Names(entries)[0] == manifestName;
    assert forall i :: 0 < i < |entries| ==> Names(entries)[i] == artifacts[i - 1].path;
  }

  lemma {:induction false} PositiveAndPrefixed(a: Artifact, prefix: string)
    requires ArtifactOk(a, prefix)
    ensures a.sizeBytes > 0 && HasPrefix(a.path, prefix)
  {
    hide TrimSpace, Size, Contains, ContainsAny, IsSha256;
  }

  ghost predicate Written(entries: seq<Entry>, manifestName: string, manifest: Bytes, artifacts: seq<Artifact>, open: Artifact -> Source) {
    && (forall i :: 0 <= i < |artifacts| ==> open(artifacts[i]).Opened?)
    && entries == [FileEntry(manifestName, manifest)] + EntriesFor(artifacts, open)
  }

  lemma {:induction false} WrittenTurn(entries: seq<Entry>, manifestName: string, manifest: Bytes, artifacts: seq<Artifact>, prefix: string,
                                       open: Artifact -> Source, p: string, lib: Library, consumer: Consumer)
    requires AllWritable(artifacts, open, lib) && EachOk(artifacts, |artifacts|, prefix)
    requires Written(entries, manifestName, manifest, artifacts, open) && Distinct(Names(entries)) && Distinct(PathsOf(artifacts))
    requires !HasPrefix(manifestName, prefix) && Complete(consumer) && p in ByPath(artifacts)
    ensures open(ByPath(artifacts)[p]).Opened?
    ensures Handle(Index(entries), manifestName, ByPath(artifacts)[p], lib, consumer)
         == Consumption(true, [Delivery(ByPath(artifacts)[p], open(ByPath(artifacts)[p]).data)])
  {
    hide SafePath, ArtifactOk, Handle, Size, Complete, ByPath, Names, Distinct, Index;
    PathIsDeclared(artifacts, p);
    var k :| 0 <= k < |artifacts| && artifacts[k] == ByPath(artifacts)[p];
    assert entries[k + 1] == FileEntry(p, open(artifacts[k]).data);
    assert entries[k + 1] in entries;
    IndexLookup(entries);
    PositiveAndPrefixed(artifacts[k], prefix);
    assert Writable(artifacts[k], open(artifacts[k]), lib);
    WrittenEntryIsHandled(Index(entries), manifestName, artifacts[k], open, lib, consumer);
  }

  lemma {:induction false} WrittenManifest(size: int, entries: seq<Entry>, manifestName: string, manifest: Bytes,
                                           artifacts: seq<Artifact>, open: Artifact -> Source)
    requires Written(entries, manifestName, manifest, artifacts, open) && Openable(size, entries, manifestName)
    requires 0 < |manifest| <= MAX_MANIFEST_BYTES
    ensures OpenedManifest(size, Some(entries), manifestName) == Some(manifest)
    ensures |Index(entries)| == |artifacts| + 1
  {
    hide SafeEntry, Index;
    IndexLookup(entries);
    assert entries[0] == FileEntry(manifestName, manifest) && entries[0] in entries;
  }

  /** A written package is opened, and consumed completely. */
  lemma {:induction false} WrittenIsConsumed(size: int, entries: seq<Entry>, manifestName: string, manifest: Bytes,
                                             artifacts: seq<Artifact>, prefix: string,
                                             open: Artifact -> Source, lib: Library, consumer: Consumer)
    requires AllWritable(artifacts, open, lib) && EachOk(artifacts, |artifacts|, prefix) && PathsDistinct(artifacts, |artifacts|)
    requires ReaderLimits(size, artifacts) && 0 < |manifest| <= MAX_MANIFEST_BYTES
    requires SafePath(manifestName) && !HasPrefix(manifestName, prefix) && Complete(consumer)
    requires Written(entries, manifestName, manifest, artifacts, open)
    ensures
      var paths := Sort(PathsOf(artifacts));
      && OpenedManifest(size, Some(entries), manifestName) == Some(manifest)
      && (forall p :: p in paths ==> p in ByPath(artifacts) && open(ByPath(artifacts)[p]).Opened?)
      && Consume(Index(entries), manifestName, artifacts, lib, consumer) == Consumption(true, SourceLog(artifacts, open, paths))
  {
    hide SafePath, ArtifactOk, Handle, SafeEntry, Size, Complete, ByPath, Index, Writable, OpenedManifest, Sort;
    var paths := Sort(PathsOf(artifacts));
    WrittenIsOpenable(size, manifestName, manifest, artifacts, prefix, open, lib);
    WrittenManifest(size, entries, manifestName, manifest, artifacts, open);
    SortedPathsAreDeclared(artifacts);
    forall p | p in paths
      ensures open(ByPath(artifacts)[p]).Opened?
      ensures Handle(Index(entries), manifestName, ByPath(artifacts)[p], lib, consumer)
           == Consumption(true, [Delivery(ByPath(artifacts)[p], open(ByPath(artifacts)[p]).data)])
    {
      WrittenTurn(entries, manifestName, manifest, artifacts, prefix, open, p, lib, consumer);
    }
    WrittenEntriesAreConsumed(Index(entries), manifestName, artifacts, paths, open, lib, consumer);
    forall i | 0 <= i < |artifacts| ensures artifacts[i].sizeBytes > 0 {
      PositiveAndPrefixed(artifacts[i], prefix);
    }
    WrappingTotalIsExact(artifacts);
  }

  lemma {:induction false} SourcesOpened(artifacts: seq<Artifact>, open: Artifact -> Source, lib: Library)
    requires AllWritable(artifacts, open, lib)
    ensures forall i :: 0 <= i < |artifacts| ==> open(artifacts[i]).Opened?
  {
    hide SafePath, Size;
    assert forall i :: 0 <= i < |artifacts| ==> Writable(artifacts[i], open(artifacts[i]), lib);
  }

  lemma {:induction false} ManifestNamesAreSafe()
    ensures SafePath(TASK_MANIFEST) && !HasPrefix(TASK_MANIFEST, INPUTS)
    ensures SafePath(RESULT_MANIFEST) && !HasPrefix(RESULT_MANIFEST, OUTPUTS)
  {
    hide SafePath;
    OneComponentIsSafe(TASK_MANIFEST);
    OneComponentIsSafe(RESULT_MANIFEST);
    assert TASK_MANIFEST[0] != INPUTS[0] && RESULT_MANIFEST[0] != OUTPUTS[0];
  }

  lemma {:induction false} OneComponentIsSafe(name: string)
    requires name != "" && forall i :: 0 <= i < |name| ==> name[i] == '.' || 'a' <= name[i] <= 'z'
    requires 'a' <= name[0] <= 'z' && 'a' <= name[|name| - 1] <= 'z'
    ensures SafePath(name)
  {
    hide Clean;
    SplitPlain(name, '/');
    assert Join([name], '/') == name;
    CleanOfPlain([name]);
    ContainedChars(name, "/../");
    ContainedChars(name, "\\");
    assert "/../"[0] in "/../" && "\\"[0] in "\\";
  }

  /** If writing a task package succeeds and its sizes are within the limits only the reader
      checks, then reading it back, with its entries in any order, gives the same envelope and
      hands the consumer every input's exact source bytes once. */
  lemma {:induction false} TaskRoundTrip(e: TaskEnvelope, open: Artifact -> Source, size: int, entries: seq<Entry>, lib: Library, consumer: Consumer)
    requires DecodeTaskEnvelope(lib.encodeTask(e), lib).Some? && AllWritable(e.manifest.inputs, open, lib)
    requires lib.decodeTask(lib.encodeTask(e)) == Some(e)
    requires multiset(entries) == multiset([FileEntry(TASK_MANIFEST, lib.encodeTask(e))] + EntriesFor(e.manifest.inputs, open))
    requires ReaderLimits(size, e.manifest.inputs) && Complete(consumer)
    ensures
      var paths := Sort(PathsOf(e.manifest.inputs));
      && (forall p :: p in paths ==> p in ByPath(e.manifest.inputs) && open(ByPath(e.manifest.inputs)[p]).Opened?)
      && ReadTask(size, Some(entries), lib, consumer) == Read(Some(e), SourceLog(e.manifest.inputs, open, paths))
  {
    hide SafePath, ArtifactOk, Writable, OpenedManifest, Consume, ReaderLimits, Complete,
         TaskIdentityOk, SignatureOk, RolesDistinct, Count, Sort, ByPath;
    ManifestNamesAreSafe();
    SourcesOpened(e.manifest.inputs, open, lib);
    var written := [FileEntry(TASK_MANIFEST, lib.encodeTask(e))] + EntriesFor(e.manifest.inputs, open);
    WrittenIsConsumed(size, written, TASK_MANIFEST, lib.encodeTask(e), e.manifest.inputs, INPUTS, open, lib, consumer);
    EntryOrderIsIrrelevant(size, written, entries, lib, consumer);
  }

  lemma {:induction false} ResultRoundTrip(e: ResultEnvelope, open: Artifact -> Source, size: int, entries: seq<Entry>, lib: Library, consumer: Consumer)
    requires DecodeResultEnvelope(lib.encodeResult(e), lib).Some? && AllWritable(e.manifest.outputs, open, lib)
    requires lib.decodeResult(lib.encodeResult(e)) == Some(e)
    requires multiset(entries) == multiset([FileEntry(RESULT_MANIFEST, lib.encodeResult(e))] + EntriesFor(e.manifest.outputs, open))
    requires ReaderLimits(size, e.manifest.outputs) && Complete(consumer)
    ensures
      var paths := Sort(PathsOf(e.manifest.outputs));
      && (forall p :: p in paths ==> p in ByPath(e.manifest.outputs) && open(ByPath(e.manifest.outputs)[p]).Opened?)
      && ReadResult(size, Some(entries), lib, consumer) == Read(Some(e), SourceLog(e.manifest.outputs, open, paths))
  {
    hide SafePath, ArtifactOk, Writable, OpenedManifest, Consume, ReaderLimits, Complete,
         ResultIdentityOk, SignatureOk, RolesDistinct, Count, Sort, ByPath, TrimSpace, Size;
    ManifestNamesAreSafe();
    SourcesOpened(e.manifest.outputs, open, lib);
    var written := [FileEntry(RESULT_MANIFEST, lib.encodeResult(e))] + EntriesFor(e.manifest.outputs, open);
    WrittenIsConsumed(size, written, RESULT_MANIFEST, lib.encodeResult(e), e.manifest.outputs, OUTPUTS, open, lib, consumer);
    EntryOrderIsIrrelevant(size, written, entries, lib, consumer);
  }
}
