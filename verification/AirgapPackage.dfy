/** Writing and strictly reading AIR_GAPPED ZIP packages. A package is its list of ZIP entries
    plus the size of the container; the ZIP byte format itself is not modelled. */
module AirgapPackage {
  import opened Text
  import opened Utf8
  import opened Paths
  import opened Sorting
  import opened AirgapManifest

  const MAX_PACKAGE_BYTES: int := 3 * 1024 * 1024 * 1024
  const MAX_ENTRIES := 260

  /** `data` is what the entry's stream yields before it ends; it ends in an error unless `sound`
      and the declared size has been reached. */
  datatype Entry = Entry(
    name: string, stored: bool, regular: bool, comment: string,
    usize: nat, csize: nat, data: Bytes, opens: bool, sound: bool)

  /** A stored entry never yields more than its compressed size. */
  predicate ZipSound(entries: seq<Entry>) {
    forall i :: 0 <= i < |entries| ==> |entries[i].data| <= entries[i].csize
  }

  // ------------------------------------------------------------------- paths

  /** validatePackagePath */
  predicate SafePath(p: string) {
    && p != "" && TrimSpace(p) == p && !Contains(p, "\\") && !ContainsAny(p, "\0\r\n")
    && !HasPrefix(p, "/") && Clean(p) == p && p != "." && !HasPrefix(p, "../") && !Contains(p, "/../")
  }

  /** A path is safe exactly when it is trimmed, free of backslashes and line ends, and consists of
      proper components; a lone ".." passes as well. */
  lemma {:induction false} SafePathMeans(p: string)
    ensures SafePath(p) <==>
            && TrimSpace(p) == p && '\\' !in p && '\0' !in p && '\r' !in p && '\n' !in p
            && (AllPlain(Split(p, '/')) || p == "..")
  {
    hide TrimSpace, Contains, ContainsAny, Clean, Split;
    BackslashInside(p);
    MarksInside(p);
    if SafePath(p) {
      SafeComponents(p);
    }
    if AllPlain(Split(p, '/')) {
      PlainComponents(p);
    }
    if p == ".." {
      LoneClimb();
    }
  }

  lemma {:induction false} BackslashInside(p: string)
    ensures Contains(p, "\\") <==> '\\' in p
  {
    ContainedChars(p, "\\");
    assert "\\"[0] == '\\';
    if '\\' in p {
      var k :| 0 <= k < |p| && p[k] == '\\';
      assert "\\" <= p[k..];
    }
  }

  lemma {:induction false} MarksInside(p: string)
    ensures ContainsAny(p, "\0\r\n") <==> '\0' in p || '\r' in p || '\n' in p
  {
    assert "\0\r\n"[0] == '\0' && "\0\r\n"[1] == '\r' && "\0\r\n"[2] == '\n';
  }

  lemma {:induction false} LoneClimb()
    ensures SafePath("..")
  {
    hide Contains, ContainsAny;
    SplitPlain("..", '/');
    assert Clean("..") == ".." by {
      assert [".."][..0] == [];
      assert Resolve([".."], false) == [".."];
    }
    assert TrimSpace("..") == "..";
    ContainedChars("..", "/../");
    assert "/../"[0] == '/' && "/../"[0] in "/../";
    BackslashInside("..");
    MarksInside("..");
  }

  lemma {:induction false} SafeComponents(p: string)
    requires SafePath(p)
    ensures AllPlain(Split(p, '/')) || p == ".."
  {
    hide TrimSpace, Contains, ContainsAny, Split;
    var parts := Split(p, '/');
    CleanComponents(p);
    CleanIsResolved(p);
    if i :| 0 <= i < |parts| && parts[i] == ".." {
      ClimbsComeFirst(parts);
      FirstClimb(parts, i);
      StartsWithClimb(p);
    }
  }

  lemma {:induction false} PlainComponents(p: string)
    requires AllPlain(Split(p, '/'))
    ensures p != "" && !HasPrefix(p, "/") && Clean(p) == p && p != "." && !HasPrefix(p, "../") && !Contains(p, "/../")
  {
    hide Split, Clean;
    var parts := Split(p, '/');
    JoinSplit(p, '/');
    CleanOfPlain(parts);
    if p == "" {
      SplitEmpty('/');
    }
    if p == "." {
      SplitPlain(".", '/');
    }
    StartsWithClimb(p);
    if Contains(p, "/../") {
      InnerClimb(p);
    }
  }

  /** A declared, accepted artifact path has only proper components, so it cannot leave the
      directory it is extracted to. */
  lemma {:induction false} DeclaredPathStaysInside(a: Artifact, prefix: string)
    requires ArtifactOk(a, prefix) && SafePath(a.path)
    ensures AllPlain(Split(a.path, '/'))
  {
    hide TrimSpace, IsSha256, ContainsAny, Contains, Clean, Size;
    var parts := Split(a.path, '/');
    CleanComponents(a.path);
    forall i | 0 <= i < |parts| ensures Plain(parts[i]) {
      ComponentOccurs(a.path, i);
    }
  }

  // ----------------------------------------------------------------- writing

  datatype Source = Refused | Opened(data: Bytes, readFails: bool, closeFails: bool)

  function FileEntry(name: string, data: Bytes): Entry {
    Entry(name, true, true, "", |data|, |data|, data, true, true)
  }

  predicate SourceMatches(a: Artifact, s: Source, lib: Library) {
    && s.Opened? && !s.readFails && !s.closeFails
    && |s.data| == a.sizeBytes && lib.sha256(s.data) == a.sha256
  }

  predicate Writable(a: Artifact, s: Source, lib: Library) {
    SafePath(a.path) && Size(a.path) <= 0xFFFF && SourceMatches(a, s, lib)
  }

  function EntriesFor(artifacts: seq<Artifact>, open: Artifact -> Source): seq<Entry>
    requires forall i :: 0 <= i < |artifacts| ==> open(artifacts[i]).Opened?
  {
    seq(|artifacts|, i requires 0 <= i < |artifacts| => FileEntry(artifacts[i].path, open(artifacts[i]).data))
  }

  predicate AllWritable(artifacts: seq<Artifact>, open: Artifact -> Source, lib: Library) {
    |artifacts| + 1 <= MAX_ENTRIES && forall i :: 0 <= i < |artifacts| ==> Writable(artifacts[i], open(artifacts[i]), lib)
  }

  /** Copies one source through a limit of one byte more than declared, hashing what it copies. */
  method CopySource(a: Artifact, source: Source, lib: Library) returns (r: Option<Bytes>)
    ensures r.Some? <==> SourceMatches(a, source, lib)
    ensures r.Some? ==> r.value == source.data
  {
    if source.Refused? {
      return None;
    }
    var limit := if a.sizeBytes + 1 > 0 then a.sizeBytes + 1 else 0;
    var copied := if |source.data| < limit then source.data else source.data[..limit];
    if source.readFails && |source.data| < limit {
      return None;
    }
    if source.closeFails {
      return None;
    }
    if |copied| != a.sizeBytes || lib.sha256(copied) != a.sha256 {
      return None;
    }
    return Some(copied);
  }

  /** The output file and the ZIP writer take every entry and the final directory; `sink(i)` is the
      answer for entry `i`, the manifest being entry 0 and closing coming last. */
  predicate SinkOk(sink: nat -> bool, artifacts: nat) {
    forall i :: 0 <= i <= artifacts + 1 ==> sink(i)
  }

  method WritePackage(manifestName: string, manifest: Bytes, artifacts: seq<Artifact>, open: Artifact -> Source,
                      sink: nat -> bool, lib: Library) returns (r: Option<seq<Entry>>)
    ensures r.Some? <==> AllWritable(artifacts, open, lib) && SinkOk(sink, |artifacts|)
    ensures r.Some? ==> r.value == [FileEntry(manifestName, manifest)] + EntriesFor(artifacts, open)
  {
    hide SafePath, Size, SourceMatches;
    if |artifacts| + 1 > MAX_ENTRIES {
      return None;
    }
    if !sink(0) {
      return None;
    }
    var written := [FileEntry(manifestName, manifest)];
    for i := 0 to |artifacts|
      invariant forall j :: 0 <= j <= i ==> sink(j)
      invariant forall j :: 0 <= j < i ==> Writable(artifacts[j], open(artifacts[j]), lib) && open(artifacts[j]).Opened?
      invariant |written| == i + 1 && written[0] == FileEntry(manifestName, manifest)
      invariant forall j :: 0 <= j < i ==> written[j + 1] == FileEntry(artifacts[j].path, open(artifacts[j]).data)
    {
      var a := artifacts[i];
      var safe := ValidatePackagePath(a.path);
      if !safe || Size(a.path) > 0xFFFF {
        return None;
      }
      var copied := CopySource(a, open(a), lib);
      if copied.None? || !sink(i + 1) {
        return None;
      }
      SourceIsOpened(a, open(a), lib);
      written := written + [FileEntry(a.path, copied.value)];
    }
    return if sink(|artifacts| + 1) then Some(written) else None;
  }

  lemma {:induction false} SourceIsOpened(a: Artifact, s: Source, lib: Library)
    requires SourceMatches(a, s, lib)
    ensures s.Opened?
  {
  }

  method WriteTaskPackage(e: TaskEnvelope, open: Artifact -> Source, sink: nat -> bool, lib: Library) returns (r: Option<seq<Entry>>)
    ensures r.Some? <==>
            DecodeTaskEnvelope(lib.encodeTask(e), lib).Some? && AllWritable(e.manifest.inputs, open, lib) && SinkOk(sink, |e.manifest.inputs|)
    ensures r.Some? ==> r.value == [FileEntry(TASK_MANIFEST, lib.encodeTask(e))] + EntriesFor(e.manifest.inputs, open)
  {
    hide TaskManifestOk, SignatureOk;
    var manifest := lib.encodeTask(e);
    if |manifest| == 0 || |manifest| > MAX_MANIFEST_BYTES {
      return None;
    }
    var decoded := DecodeTask(manifest, lib);
    if decoded.None? {
      return None;
    }
    r := WritePackage(TASK_MANIFEST, manifest, e.manifest.inputs, open, sink, lib);
  }

  method WriteResultPackage(e: ResultEnvelope, open: Artifact -> Source, sink: nat -> bool, lib: Library) returns (r: Option<seq<Entry>>)
    ensures r.Some? <==>
            DecodeResultEnvelope(lib.encodeResult(e), lib).Some? && AllWritable(e.manifest.outputs, open, lib) && SinkOk(sink, |e.manifest.outputs|)
    ensures r.Some? ==> r.value == [FileEntry(RESULT_MANIFEST, lib.encodeResult(e))] + EntriesFor(e.manifest.outputs, open)
  {
    hide ResultManifestOk, SignatureOk, TrimSpace, Size;
    var manifest := lib.encodeResult(e);
    if |manifest| == 0 || |manifest| > MAX_MANIFEST_BYTES {
      return None;
    }
    var decoded := DecodeResult(manifest, lib);
    if decoded.None? {
      return None;
    }
    r := WritePackage(RESULT_MANIFEST, manifest, e.manifest.outputs, open, sink, lib);
  }

  // ----------------------------------------------------------- opening a package

  predicate SafeEntry(e: Entry) {
    && SafePath(e.name) && e.stored && e.regular && e.usize <= MAX_PACKAGE_BYTES
    && e.csize == e.usize && e.comment == ""
  }

  function Names(entries: seq<Entry>): seq<string> {
    seq(|entries|, i requires 0 <= i < |entries| => entries[i].name)
  }

  function Index(entries: seq<Entry>): map<string, Entry> {
    if entries == [] then map[]
    else Index(entries[..|entries| - 1])[entries[|entries| - 1].name := entries[|entries| - 1]]
  }

  predicate Openable(size: int, entries: seq<Entry>, manifestName: string) {
    && 0 < size <= MAX_PACKAGE_BYTES && 0 < |entries| <= MAX_ENTRIES
    && (forall i :: 0 <= i < |entries| ==> SafeEntry(entries[i]))
    && Distinct(Names(entries))
    && manifestName in Names(entries)
  }

  method ValidatePackagePath(value: string) returns (ok: bool)
    ensures ok <==> SafePath(value)
  {
    hide TrimSpace, Contains, ContainsAny, Clean;
    return !(value == "" || TrimSpace(value) != value || Contains(value, "\\") || ContainsAny(value, "\0\r\n")
             || HasPrefix(value, "/") || Clean(value) != value || value == "." || HasPrefix(value, "../") || Contains(value, "/../"));
  }

  /** `entries` is None when the container is not a readable ZIP. */
  method OpenPackage(size: int, entries: Option<seq<Entry>>, manifestName: string) returns (r: Option<map<string, Entry>>)
    ensures r == if entries.Some? && Openable(size, entries.value, manifestName) then Some(Index(entries.value)) else None
  {
    hide SafePath, Names, Index, Distinct;
    if size <= 0 || size > MAX_PACKAGE_BYTES {
      return None;
    }
    if entries.None? || |entries.value| == 0 || |entries.value| > MAX_ENTRIES {
      return None;
    }
    var files := entries.value;
    var byName: map<string, Entry> := map[];
    assert Index(files[..0]) == map[] && Distinct(Names(files[..0])) by { NoEntries(); }
    for i := 0 to |files|
      invariant byName == Index(files[..i])
      invariant forall j :: 0 <= j < i ==> SafeEntry(files[j])
      invariant Distinct(Names(files[..i]))
    {
      var e := files[i];
      NextEntry(files, i);
      var safe := ValidatePackagePath(e.name);
      if !safe || !e.stored || !e.regular || e.usize > MAX_PACKAGE_BYTES || e.csize != e.usize || e.comment != "" {
        return None;
      }
      if e.name in byName {
        return None;
      }
      byName := byName[e.name := e];
    }
    assert files[..|files|] == files;
    IndexKeys(files);
    if manifestName !in byName {
      return None;
    }
    return Some(byName);
  }

  lemma {:induction false} IndexKeys(entries: seq<Entry>)
    ensures forall n :: n in Index(entries) <==> n in Names(entries)
  {
    if entries != [] {
      var front := entries[..|entries| - 1];
      IndexKeys(front);
      assert Names(entries) == Names(front) + [entries[|front|].name];
    }
  }

  lemma {:induction false} NoEntries()
    ensures Index([]) == map[] && Distinct(Names([]))
  {
  }

  /** One turn of the entry loop: a name that is taken spoils the whole list, a free one joins it. */
  lemma {:induction false} NextEntry(entries: seq<Entry>, i: nat)
    requires i < |entries| && Distinct(Names(entries[..i]))
    ensures var before, e := Index(entries[..i]), entries[i];
            if e.name in before then !Distinct(Names(entries))
            else Index(entries[..i + 1]) == before[e.name := e] && Distinct(Names(entries[..i + 1]))
  {
    var before, e := entries[..i], entries[i];
    IndexKeys(before);
    assert entries[..i + 1][..i] == before;
    assert Names(entries[..i + 1]) == Names(before) + [e.name];
    if e.name in Index(before) {
      var j :| 0 <= j < i && Names(before)[j] == e.name;
      assert Names(entries)[j] == Names(entries)[i];
    }
  }

  lemma {:induction false} IndexLookup(entries: seq<Entry>)
    requires Distinct(Names(entries))
    ensures forall e :: e in entries ==> e.name in Index(entries) && Index(entries)[e.name] == e
    ensures forall n :: n in Index(entries) ==> Index(entries)[n] in entries && Index(entries)[n].name == n
    ensures |Index(entries)| == |entries|
  {
    if entries != [] {
      var front, e := entries[..|entries| - 1], entries[|entries| - 1];
      assert Names(front) == Names(entries)[..|front|];
      IndexLookup(front);
      assert entries == front + [e];
      assert e.name !in Index(front) by {
        assert forall k :: 0 <= k < |front| ==> front[k].name == Names(entries)[k] != Names(entries)[|front|];
      }
      assert Index(entries).Keys == Index(front).Keys + {e.name};
    }
  }

  /** The stream of an entry ends cleanly after exactly the declared number of bytes. */
  predicate EndsCleanly(e: Entry) { |e.data| == e.usize && e.sound }

  /** readManifest */
  function ReadManifest(e: Entry): Option<Bytes> {
    if e.usize == 0 || e.usize > MAX_MANIFEST_BYTES || !e.opens then None
    else
      var data := if |e.data| <= MAX_MANIFEST_BYTES + 1 then e.data else e.data[..MAX_MANIFEST_BYTES + 1];
      if (|e.data| <= MAX_MANIFEST_BYTES && !EndsCleanly(e)) || |data| != e.usize then None else Some(data)
  }

  // -------------------------------------------------------------- consuming

  /** How a consumer treats the stream it is given: the number of bytes it reads and whether it
      reports an error. */
  datatype Reading = Reading(count: nat, fails: bool)
  type Consumer = (Artifact, Bytes) -> Reading

  datatype Delivery = Delivery(artifact: Artifact, bytes: Bytes)
  datatype Consumption = Consumption(ok: bool, log: seq<Delivery>)

  function AsUint64(n: Int64): nat {
    if n < 0 then n + 0x1_0000_0000_0000_0000 else n
  }

  function AddInt64(a: Int64, b: Int64): Int64 {
    var s := a as int + b as int;
    if s >= 0x8000_0000_0000_0000 then s - 0x1_0000_0000_0000_0000
    else if s < -0x8000_0000_0000_0000 then s + 0x1_0000_0000_0000_0000
    else s
  }

  function Limited(e: Entry, a: Artifact): Bytes {
    var limit := if a.sizeBytes + 1 > 0 then a.sizeBytes + 1 else 0;
    if |e.data| <= limit then e.data else e.data[..limit]
  }

  /** One turn of the reader's loop: the bytes handed over, if any, and whether the turn succeeds. */
  function Handle(entries: map<string, Entry>, manifestName: string, a: Artifact, lib: Library, consumer: Consumer): Consumption {
    if a.path !in entries || entries[a.path].name == manifestName
       || entries[a.path].usize != AsUint64(a.sizeBytes) || !entries[a.path].opens
    then Consumption(false, [])
    else
      var e := entries[a.path];
      var available := Limited(e, a);
      var reading := consumer(a, available);
      var taken := if reading.count < |available| then available[..reading.count] else available;
      var exhausted := |e.data| > a.sizeBytes as int;
      Consumption(!reading.fails && |taken| == |available| && (exhausted || EndsCleanly(e)) && lib.sha256(taken) == a.sha256,
                  [Delivery(a, taken)])
  }

  function ByPath(artifacts: seq<Artifact>): map<string, Artifact> {
    if artifacts == [] then map[]
    else ByPath(artifacts[..|artifacts| - 1])[artifacts[|artifacts| - 1].path := artifacts[|artifacts| - 1]]
  }

  function PathsOf(artifacts: seq<Artifact>): seq<string> {
    seq(|artifacts|, i requires 0 <= i < |artifacts| => artifacts[i].path)
  }

  function WrappedTotal(artifacts: seq<Artifact>): Int64 {
    if artifacts == [] then 0
    else AddInt64(WrappedTotal(artifacts[..|artifacts| - 1]), artifacts[|artifacts| - 1].sizeBytes)
  }

  predicate TotalsAccepted(artifacts: seq<Artifact>) {
    artifacts == [] || (TotalsAccepted(artifacts[..|artifacts| - 1]) && 0 <= WrappedTotal(artifacts) <= MAX_PACKAGE_BYTES)
  }

  function TrueTotal(artifacts: seq<Artifact>): int {
    if artifacts == [] then 0
    else TrueTotal(artifacts[..|artifacts| - 1]) + artifacts[|artifacts| - 1].sizeBytes
  }

  /** The wrapping accumulator decides the unbounded sum exactly. */
  lemma {:induction false} WrappingTotalIsExact(artifacts: seq<Artifact>)
    requires forall i :: 0 <= i < |artifacts| ==> artifacts[i].sizeBytes > 0
    ensures TotalsAccepted(artifacts) <==> TrueTotal(artifacts) <= MAX_PACKAGE_BYTES
    ensures TotalsAccepted(artifacts) ==> WrappedTotal(artifacts) == TrueTotal(artifacts)
    ensures TrueTotal(artifacts) >= 0
  {
    if artifacts != [] {
      WrappingTotalIsExact(artifacts[..|artifacts| - 1]);
    }
  }

  function ConsumeEach(entries: map<string, Entry>, manifestName: string, expected: map<string, Artifact>, paths: seq<string>,
                       lib: Library, consumer: Consumer): Consumption
    requires forall p :: p in paths ==> p in expected
  {
    if paths == [] then Consumption(true, [])
    else
      var before := ConsumeEach(entries, manifestName, expected, paths[..|paths| - 1], lib, consumer);
      if !before.ok then before
      else
        var last := Handle(entries, manifestName, expected[paths[|paths| - 1]], lib, consumer);
        Consumption(last.ok, before.log + last.log)
  }

  lemma {:induction false} ByPathKeys(artifacts: seq<Artifact>)
    ensures forall p :: p in ByPath(artifacts) <==> p in PathsOf(artifacts)
  {
    if artifacts != [] {
      var front := artifacts[..|artifacts| - 1];
      ByPathKeys(front);
      assert PathsOf(artifacts) == PathsOf(front) + [artifacts[|front|].path];
    }
  }

  lemma {:induction false} LastPathIsNew(artifacts: seq<Artifact>)
    requires artifacts != [] && Distinct(PathsOf(artifacts))
    ensures Distinct(PathsOf(artifacts[..|artifacts| - 1]))
    ensures artifacts[|artifacts| - 1].path !in ByPath(artifacts[..|artifacts| - 1])
  {
    var front, all := artifacts[..|artifacts| - 1], PathsOf(artifacts);
    ByPathKeys(front);
    assert PathsOf(front) == all[..|front|];
    assert forall k :: 0 <= k < |front| ==> PathsOf(front)[k] == all[k] != all[|front|];
  }

  lemma {:induction false} ByPathLookup(artifacts: seq<Artifact>)
    requires Distinct(PathsOf(artifacts))
    ensures forall i :: 0 <= i < |artifacts| ==> artifacts[i].path in ByPath(artifacts) && ByPath(artifacts)[artifacts[i].path] == artifacts[i]
    ensures |ByPath(artifacts)| == |artifacts|
  {
    if artifacts != [] {
      var front, a := artifacts[..|artifacts| - 1], artifacts[|artifacts| - 1];
      LastPathIsNew(artifacts);
      ByPathLookup(front);
      assert ByPath(artifacts).Keys == ByPath(front).Keys + {a.path};
      forall i | 0 <= i < |front| ensures artifacts[i].path in ByPath(front) && ByPath(artifacts)[artifacts[i].path] == artifacts[i] {
        assert artifacts[i] == front[i];
      }
    }
  }

  lemma {:induction false} SortedPathsAreDeclared(artifacts: seq<Artifact>)
    requires Distinct(PathsOf(artifacts))
    ensures forall p :: p in Sort(PathsOf(artifacts)) ==> p in ByPath(artifacts)
  {
    ByPathKeys(artifacts);
    SortSorts(PathsOf(artifacts));
    forall p | p in Sort(PathsOf(artifacts)) ensures p in PathsOf(artifacts) {
      assert p in multiset(Sort(PathsOf(artifacts)));
    }
  }

  /** consumePackageArtifacts */
  function Consume(entries: map<string, Entry>, manifestName: string, artifacts: seq<Artifact>, lib: Library, consumer: Consumer): Consumption {
    if !Distinct(PathsOf(artifacts)) || !TotalsAccepted(artifacts) || |entries| != |artifacts| + 1 then Consumption(false, [])
    else
      SortedPathsAreDeclared(artifacts);
      ConsumeEach(entries, manifestName, ByPath(artifacts), Sort(PathsOf(artifacts)), lib, consumer)
  }

  method CollectPaths(expected: map<string, Artifact>) returns (paths: seq<string>)
    ensures Distinct(paths) && forall p :: p in paths <==> p in expected
  {
    paths := [];
    var keys := expected.Keys;
    while keys != {}
      invariant Distinct(paths)
      invariant forall p :: p in paths <==> p in expected && p !in keys
      invariant keys <= expected.Keys
      decreases keys
    {
      var p :| p in keys;
      paths := paths + [p];
      keys := keys - {p};
    }
  }

  /** The reader's first loop: fails on a repeated path or when the running total leaves the limit. */
  method ExpectArtifacts(artifacts: seq<Artifact>) returns (r: Option<map<string, Artifact>>)
    ensures r == if Distinct(PathsOf(artifacts)) && TotalsAccepted(artifacts) then Some(ByPath(artifacts)) else None
  {
    hide AddInt64;
    var expected: map<string, Artifact>, total: Int64 := map[], 0;
    var all := PathsOf(artifacts);
    for i := 0 to |artifacts|
      invariant expected == ByPath(artifacts[..i]) && total == WrappedTotal(artifacts[..i])
      invariant TotalsAccepted(artifacts[..i]) && Distinct(all[..i])
    {
      assert artifacts[..i + 1][..i] == artifacts[..i];
      assert all[..i + 1] == all[..i] + [all[i]] && PathsOf(artifacts[..i]) == all[..i];
      var a := artifacts[i];
      ByPathKeys(artifacts[..i]);
      if a.path in expected {
        var k :| 0 <= k < i && all[..i][k] == a.path;
        assert all[k] == all[i];
        return None;
      }
      expected := expected[a.path := a];
      total := AddInt64(total, a.sizeBytes);
      if total < 0 || total > MAX_PACKAGE_BYTES {
        TotalsRejectLonger(artifacts, i + 1);
        return None;
      }
    }
    assert artifacts[..|artifacts|] == artifacts && all[..|artifacts|] == all;
    return Some(expected);
  }

  method ConsumePackageArtifacts(entries: map<string, Entry>, manifestName: string, artifacts: seq<Artifact>, lib: Library, consumer: Consumer)
    returns (r: Consumption)
    ensures r == Consume(entries, manifestName, artifacts, lib, consumer)
  {
    hide Handle, TotalsAccepted;
    var first := ExpectArtifacts(artifacts);
    if first.None? {
      return Consumption(false, []);
    }
    var expected := first.value;
    ByPathLookup(artifacts);
    if |entries| != |expected| + 1 {
      return Consumption(false, []);
    }
    var paths := CollectPaths(expected);
    ByPathKeys(artifacts);
    DistinctPermutation(paths, PathsOf(artifacts));
    SortIgnoresOrder(paths, PathsOf(artifacts));
    paths := Sort(paths);
    SortedPathsAreDeclared(artifacts);
    r := ConsumeInOrder(entries, manifestName, expected, paths, lib, consumer);
  }

  method ConsumeInOrder(entries: map<string, Entry>, manifestName: string, expected: map<string, Artifact>, paths: seq<string>,
                        lib: Library, consumer: Consumer) returns (r: Consumption)
    requires forall p :: p in paths ==> p in expected
    ensures r == ConsumeEach(entries, manifestName, expected, paths, lib, consumer)
  {
    hide Handle;
    r := Consumption(true, []);
    for i := 0 to |paths|
      invariant r == ConsumeEach(entries, manifestName, expected, paths[..i], lib, consumer) && r.ok
    {
      assert paths[..i + 1][..i] == paths[..i];
      var turn := Handle(entries, manifestName, expected[paths[i]], lib, consumer);
      r := Consumption(turn.ok, r.log + turn.log);
      if !turn.ok {
        FailureStops(entries, manifestName, expected, paths, i + 1, lib, consumer);
        return;
      }
    }
    assert paths[..|paths|] == paths;
  }

  lemma {:induction false} TotalsRejectLonger(artifacts: seq<Artifact>, n: nat)
    requires n <= |artifacts| && !TotalsAccepted(artifacts[..n])
    ensures !TotalsAccepted(artifacts)
  {
    if n == |artifacts| {
      assert artifacts[..n] == artifacts;
    } else {
      var front := artifacts[..|artifacts| - 1];
      assert front[..n] == artifacts[..n];
      TotalsRejectLonger(front, n);
    }
  }

  lemma {:induction false} FailureStops(entries: map<string, Entry>, manifestName: string, expected: map<string, Artifact>,
                     paths: seq<string>, n: nat, lib: Library, consumer: Consumer)
    requires n <= |paths| && forall p :: p in paths ==> p in expected
    requires !ConsumeEach(entries, manifestName, expected, paths[..n], lib, consumer).ok
    ensures ConsumeEach(entries, manifestName, expected, paths, lib, consumer)
         == ConsumeEach(entries, manifestName, expected, paths[..n], lib, consumer)
  {
    if n == |paths| {
      assert paths[..n] == paths;
    } else {
      var front := paths[..|paths| - 1];
      assert front[..n] == paths[..n];
      FailureStops(entries, manifestName, expected, front, n, lib, consumer);
    }
  }
}
