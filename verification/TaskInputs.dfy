/** How the local agent fetches the inputs of a task into its private work directory. */
module TaskInputs {
  import opened Text
  import opened Utf8
  import opened CustomerObjects

  datatype Input = Input(
    role: string, objectId: int, originalName: string, sizeBytes: int, sha256: string,
    storageMode: int, ownerAgentId: int, localPath: string, downloadPath: string, customerReference: string)

  /** The control plane's answer to one download. `broken` says that reading the body or writing
      the local file failed. */
  datatype Response = Unreachable | Response(status: int, contentLength: int, digestHeader: string, body: Bytes, broken: bool)

  /** What Stat and Open find of one object in the customer's store. */
  datatype Reading = Reading(size: Option<int>, body: Option<Bytes>, broken: bool)

  /** SHA-256 in lower hex, and the two uses of url.Parse. */
  datatype Library = Library(hash: Bytes -> string, routable: string -> bool, parse: string -> Option<Url>)

  /** Digests are written as 64 lower-case hex digits. */
  ghost predicate HexHash(hash: Bytes -> string) { forall b: Bytes :: IsHexDigest(hash(b)) }

  predicate IsHexDigest(s: string) { |s| == 64 && forall i :: 0 <= i < 64 ==> IsHex(s[i]) }

  /** Such a digest is already in the form the agent compares. */
  lemma {:induction false} HexDigestIsCanonical(s: string)
    requires IsHexDigest(s)
    ensures IsDigest(s) && Canonical(s) == s && ToLower(s) == s
  {
    assert !IsSpace(s[0]) && !IsSpace(s[63]);
    assert TrimSpace(s) == s;
    assert ToLower(s) == s;
  }

  // ------------------------------------------------------------------ integrity

  function Canonical(digest: string): string { ToLower(TrimSpace(digest)) }

  predicate IsHex(c: char) { IsDigit(c) || 'a' <= c <= 'f' }

  predicate IsDigest(s: string) {
    |Canonical(s)| == 64 && forall i :: 0 <= i < 64 ==> IsHex(Canonical(s)[i])
  }

  /** The digests the agent accepts: 64 hex digits of either case, with any spaces around them. */
  lemma {:induction false} DigestForms(s: string)
    ensures IsDigest(s) <==>
            |TrimSpace(s)| == 64
            && forall i :: 0 <= i < 64 ==> '0' <= TrimSpace(s)[i] <= '9' || 'a' <= TrimSpace(s)[i] <= 'f' || 'A' <= TrimSpace(s)[i] <= 'F'
  {
    hide TrimSpace;
    var t := TrimSpace(s);
    assert |ToLower(t)| == |t| && forall i :: 0 <= i < |t| ==> ToLower(t)[i] == LowerChar(t[i]);
  }

  /** What io.Copy takes through a limit of one byte more than expected. */
  function Limited(body: Bytes, size: nat): Bytes { if |body| <= size + 1 then body else body[..size + 1] }

  /** Comparing the limited copy decides about the whole body. */
  lemma {:induction false} LimitedCopyDecides(body: Bytes, size: nat, digest: string, hash: Bytes -> string)
    ensures |Limited(body, size)| == size && hash(Limited(body, size)) == digest <==> |body| == size && hash(body) == digest
  {
  }

  /** A download that yields exactly the declared bytes, with nothing in the answer against it. */
  predicate Delivers(input: Input, r: Response, hash: Bytes -> string) {
    && input.sizeBytes > 0 && IsDigest(input.sha256)
    && r.Response? && r.status == 200 && (r.contentLength < 0 || r.contentLength == input.sizeBytes)
    && (Canonical(r.digestHeader) == "" || Canonical(r.digestHeader) == Canonical(input.sha256))
    && !r.broken && |r.body| == input.sizeBytes && hash(r.body) == Canonical(input.sha256)
  }

  /** An object that holds exactly the declared bytes; the digest is lower-cased but not trimmed. */
  predicate Holds(r: Reading, size: int, digest: string, hash: Bytes -> string) {
    && size > 0 && IsDigest(digest) && r.size == Some(size) && r.body.Some? && !r.broken
    && |r.body.value| == size && hash(r.body.value) == ToLower(digest)
  }

  // -------------------------------------------------------------- target names

  function Pad2(i: nat): (s: string)
    ensures s != "" && AllDigits(s) && Value(s) == i
  {
    if i < 10 then
      assert ['0', DigitChar(i)][..1] == ['0'] && ['0'][..0] == "";
      assert Value(['0']) == 0;
      ['0', DigitChar(i)]
    else Digits(i)
  }

  function Safe(s: string): string {
    if s == "" then ""
    else
      var c := s[0];
      var rest := Safe(s[1..]);
      if 'a' <= c <= 'z' || 'A' <= c <= 'Z' || IsDigit(c) || c == '-' || c == '_' then [c] + rest else rest
  }

  /** filepath.Ext */
  function Ext(s: string): string {
    if s == "" || s[|s| - 1] == '/' then ""
    else if s[|s| - 1] == '.' then "."
    else
      var e := Ext(s[..|s| - 1]);
      if e == "" then "" else e + [s[|s| - 1]]
  }

  function TargetSuffix(input: Input): string {
    var role := if Safe(input.role) == "" then "input" else Safe(input.role);
    var extension := ToLower(Ext(TrimSpace(input.originalName)));
    role + "-" + Itoa(input.objectId) + if Size(extension) > 16 then "" else extension
  }

  function Target(i: nat, input: Input): string { "inputs/" + (Pad2(i) + ['-'] + TargetSuffix(input)) }

  predicate IsNameChar(c: char) { 'a' <= c <= 'z' || 'A' <= c <= 'Z' || '0' <= c <= '9' || c == '-' || c == '_' }

  /** Of a role only letters, digits, hyphens and underscores get into a file name, each by itself. */
  lemma {:induction false} SafeIsPiecewise(a: string, b: string)
    ensures Safe(a + b) == Safe(a) + Safe(b)
    ensures forall c :: Safe([c]) == if IsNameChar(c) then [c] else ""
  {
    forall c ensures Safe([c]) == if IsNameChar(c) then [c] else "" {
      assert [c][1..] == "" && [c] + "" == [c];
    }
    if a == "" {
      assert a + b == b;
    } else {
      assert (a + b)[0] == a[0] && (a + b)[1..] == a[1..] + b;
      SafeIsPiecewise(a[1..], b);
    }
  }

  lemma {:induction false} ExtStep(s: string, c: char)
    ensures Ext(s + [c]) == if c == '/' then "" else if c == '.' then "." else if Ext(s) == "" then "" else Ext(s) + [c]
  {
    assert (s + [c])[..|s|] == s && (s + [c])[|s|] == c;
  }

  lemma {:induction false} ExtAtComponentStart(head: string)
    requires head == "" || head[|head| - 1] == '/'
    ensures Ext(head) == ""
  {
  }

  /** The extension is what follows the last dot of the last component, with the dot. */
  lemma {:induction false} ExtForms(head: string, tail: string)
    requires '.' !in tail && '/' !in tail
    ensures Ext(head + "." + tail) == "." + tail
    ensures head == "" || head[|head| - 1] == '/' ==> Ext(head + tail) == ""
  {
    hide Ext;
    if tail == "" {
      assert head + "." + tail == head + ['.'] && head + tail == head && "." + tail == ".";
      ExtStep(head, '.');
      if head == "" || head[|head| - 1] == '/' {
        ExtAtComponentStart(head);
      }
    } else {
      var front, c := tail[..|tail| - 1], tail[|tail| - 1];
      assert tail == front + [c];
      ExtForms(head, front);
      AppendLast(head, ".", front, c);
      AppendLast(head, "", front, c);
      ExtStep(head + "." + front, c);
      ExtStep(head + front, c);
    }
  }

  lemma {:induction false} AppendLast(head: string, mark: string, front: string, c: char)
    ensures head + mark + (front + [c]) == head + mark + front + [c] && mark + (front + [c]) == mark + front + [c]
    ensures mark == "" ==> head + (front + [c]) == head + front + [c] && head + mark == head
  {
  }

  /** The name an input gets: its place in two digits, the safe part of its role, its id, and the
      extension of its original name in lower case if that is short. */
  lemma {:induction false} TargetText(i: nat, input: Input)
    ensures var role, extension := Safe(input.role), ToLower(Ext(TrimSpace(input.originalName)));
            Target(i, input) ==
            "inputs/" + (if i <= 9 then "0" + Itoa(i) else Itoa(i)) + "-" + (if role == "" then "input" else role)
            + "-" + Itoa(input.objectId) + (if Size(extension) >= 17 then "" else extension)
  {
    hide Safe, Ext, TrimSpace, Size, Itoa, Pad2, ToLower;
    var role, extension := Safe(input.role), ToLower(Ext(TrimSpace(input.originalName)));
    var name, end := if role == "" then "input" else role, if Size(extension) >= 17 then "" else extension;
    PadText(i);
    assert TargetSuffix(input) == name + "-" + Itoa(input.objectId) + end;
    Regroup("inputs/", Pad2(i), name, Itoa(input.objectId), end);
  }

  lemma {:induction false} PadText(i: nat)
    ensures Pad2(i) == if i <= 9 then "0" + Itoa(i) else Itoa(i)
  {
  }

  lemma {:induction false} Regroup(a: string, b: string, c: string, d: string, e: string)
    ensures a + (b + ['-'] + (c + "-" + d + e)) == a + b + "-" + c + "-" + d + e
  {
  }

  /** Inputs at different places never share a file, whatever their names. */
  lemma {:induction false} TargetsDistinct(i: nat, a: Input, j: nat, b: Input)
    requires Target(i, a) == Target(j, b)
    ensures i == j
  {
    hide TargetSuffix, Pad2;
    assert forall c :: c in Pad2(i) ==> IsDigit(c);
    assert forall c :: c in Pad2(j) ==> IsDigit(c);
    var head := "inputs/";
    assert Target(i, a)[|head|..] == Pad2(i) + ['-'] + TargetSuffix(a);
    assert Target(j, b)[|head|..] == Pad2(j) + ['-'] + TargetSuffix(b);
    FirstSeparatorUnique(Pad2(i), TargetSuffix(a), Pad2(j), TargetSuffix(b), '-');
  }

  function Placed(inputs: seq<Input>, n: nat): (r: seq<Input>)
    requires n <= |inputs|
    ensures |r| == |inputs|
  {
    seq(|inputs|, i requires 0 <= i < |inputs| => if i < n then inputs[i].(localPath := Target(i, inputs[i])) else inputs[i])
  }

  // ------------------------------------------------------------------- the passes

  const DOWNLOAD_ROUTE := "/v1/artifacts/download/"
  const UPLOAD_ROUTE := "/v1/artifacts/upload/"

  /** gatewayArtifactURL succeeds: one path segment under the fixed route. */
  predicate OnRoute(path: string, route: string, lib: Library) {
    HasPrefix(path, route) && '/' !in path[|route|..] && lib.routable(path)
  }

  /** The transfer paths are one segment under the route, and nothing else. */
  lemma {:induction false} RouteForms(path: string, route: string, lib: Library)
    ensures OnRoute(path, route, lib) <==> lib.routable(path) && exists segment :: path == route + segment && '/' !in segment
  {
    if HasPrefix(path, route) {
      assert path == route + path[|route|..];
    }
    assert forall segment :: path == route + segment ==> path[|route|..] == segment;
  }

  predicate InputFetched(input: Input, r: Response, lib: Library) {
    OnRoute(input.downloadPath, "/v1/artifacts/download/", lib) && Delivers(input, r, lib.hash)
  }

  ghost predicate AllFetched(inputs: seq<Input>, fetch: (nat, string) -> Response, lib: Library) {
    inputs != [] && forall i :: 0 <= i < |inputs| ==> InputFetched(inputs[i], fetch(i, inputs[i].downloadPath), lib)
  }

  datatype Owner = Owner(agentId: int, prefix: string)

  function KeyOf(input: Input, owner: Owner, lib: Library): Option<string> {
    ParseReference(input.customerReference, owner.agentId, owner.prefix, lib.parse)
  }

  predicate InputCopied(input: Input, i: nat, owner: Owner, store: (nat, string) -> Reading, lib: Library) {
    && input.storageMode == 2 && input.ownerAgentId == owner.agentId && KeyOf(input, owner, lib).Some?
    && Holds(store(i, KeyOf(input, owner, lib).value), input.sizeBytes, input.sha256, lib.hash)
  }

  ghost predicate AllCopied(inputs: seq<Input>, owner: Owner, store: (nat, string) -> Reading, lib: Library) {
    inputs != [] && forall i :: 0 <= i < |inputs| ==> InputCopied(inputs[i], i, owner, store, lib)
  }

  /** An input is in its own file with its declared size and digest. */
  predicate InPlace(input: Input, files: map<string, Bytes>, hash: Bytes -> string) {
    && input.localPath in files
    && |files[input.localPath]| == input.sizeBytes
    && hash(files[input.localPath]) == Canonical(input.sha256)
  }

  /** Every one of the first `n` inputs is placed and in place, and no file belongs to a later one. */
  ghost predicate PlacedUpTo(before: seq<Input>, inputs: seq<Input>, n: nat, files: map<string, Bytes>, hash: Bytes -> string) {
    && n <= |before| && inputs == Placed(before, n)
    && (forall i :: 0 <= i < n ==> InPlace(inputs[i], files, hash))
    && forall f :: f in files ==> exists i :: 0 <= i < n && f == Target(i, before[i])
  }

  lemma {:induction false} NextTargetIsFree(before: seq<Input>, inputs: seq<Input>, n: nat, files: map<string, Bytes>, hash: Bytes -> string)
    requires PlacedUpTo(before, inputs, n, files, hash) && n < |before|
    ensures Target(n, before[n]) !in files
  {
    hide Target, InPlace;
    if Target(n, before[n]) in files {
      var i :| 0 <= i < n && Target(n, before[n]) == Target(i, before[i]);
      TargetsDistinct(n, before[n], i, before[i]);
      assert false;
    }
  }

  lemma {:induction false} PlaceNext(before: seq<Input>, inputs: seq<Input>, n: nat, files: map<string, Bytes>, body: Bytes, hash: Bytes -> string)
    requires PlacedUpTo(before, inputs, n, files, hash) && n < |before|
    requires |body| == before[n].sizeBytes && hash(body) == Canonical(before[n].sha256)
    ensures var t := Target(n, before[n]);
            PlacedUpTo(before, inputs[n := inputs[n].(localPath := t)], n + 1, files[t := body], hash)
  {
    hide Target, Canonical;
    NextTargetIsFree(before, inputs, n, files, hash);
    var t := Target(n, before[n]);
    var next, more := inputs[n := inputs[n].(localPath := t)], files[t := body];
    assert next == Placed(before, n + 1);
    forall i | 0 <= i < n + 1 ensures InPlace(next[i], more, hash) {
      if i < n {
        assert next[i] == inputs[i] && InPlace(inputs[i], files, hash);
      }
    }
    forall f | f in more ensures exists i :: 0 <= i < n + 1 && f == Target(i, before[i]) {
      if f != t {
        assert f in files;
      }
    }
  }

  /** The work directory's inputs and the bundle whose entries learn their local paths. */
  class WorkDir {
    var files: map<string, Bytes>
    var inputs: seq<Input>

    constructor (inputs: seq<Input>)
      ensures this.inputs == inputs && files == map[]
    {
      this.inputs, files := inputs, map[];
    }

    /** downloadArtifactFile: the file exists afterwards only if it is whole and as declared. */
    method DownloadArtifactFile(r: Response, target: string, input: Input, hash: Bytes -> string) returns (ok: bool)
      modifies this`files
      ensures ok <==> Delivers(input, r, hash) && target !in old(files)
      ensures files == if ok then old(files)[target := r.body] else old(files)
    {
      hide Canonical;
      if input.sizeBytes <= 0 || !IsDigest(input.sha256) {
        return false;
      }
      if r.Unreachable? || r.status != 200 {
        return false;
      }
      if r.contentLength >= 0 && r.contentLength != input.sizeBytes {
        return false;
      }
      var headerDigest := Canonical(r.digestHeader);
      if headerDigest != "" && headerDigest != Canonical(input.sha256) {
        return false;
      }
      if target in files {
        return false;
      }
      var copied := Limited(r.body, input.sizeBytes);
      files := files[target := copied];
      LimitedCopyDecides(r.body, input.sizeBytes, Canonical(input.sha256), hash);
      if r.broken || |copied| != input.sizeBytes || hash(copied) != Canonical(input.sha256) {
        files := files - {target};
        assert files == old(files);
        return false;
      }
      return true;
    }

    method CopyVerifiedCustomerObject(r: Reading, target: string, input: Input, hash: Bytes -> string) returns (ok: bool)
      modifies this`files
      ensures ok <==> Holds(r, input.sizeBytes, input.sha256, hash) && target !in old(files)
      ensures files == if ok then old(files)[target := r.body.value] else old(files)
    {
      hide Canonical, ToLower;
      if input.sizeBytes <= 0 || !IsDigest(input.sha256) {
        return false;
      }
      if r.size.None? || r.size.value != input.sizeBytes || r.body.None? {
        return false;
      }
      if target in files {
        return false;
      }
      var copied := Limited(r.body.value, input.sizeBytes);
      files := files[target := copied];
      LimitedCopyDecides(r.body.value, input.sizeBytes, ToLower(input.sha256), hash);
      if r.broken || |copied| != input.sizeBytes || hash(copied) != ToLower(input.sha256) {
        files := files - {target};
        assert files == old(files);
        return false;
      }
      return true;
    }

    /** The download pass succeeds exactly when every input is delivered as declared; then each
        input names a file of its own that holds exactly those bytes. */
    method DownloadArtifactInputs(fetch: (nat, string) -> Response, lib: Library) returns (ok: bool)
      modifies this
      ensures ok <==> AllFetched(old(inputs), fetch, lib)
      ensures ok ==> inputs == Placed(old(inputs), |old(inputs)|) && forall i :: 0 <= i < |inputs| ==> InPlace(inputs[i], files, lib.hash)
    {
      hide Target, Canonical, InPlace, Delivers, Placed, OnRoute;
      if inputs == [] {
        return false;
      }
      files := map[];
      ghost var before := inputs;
      assert inputs == Placed(before, 0) by { NothingPlaced(before); }
      for index := 0 to |inputs|
        invariant PlacedUpTo(before, inputs, index, files, lib.hash) && |inputs| == |before|
        invariant forall i :: 0 <= i < index ==> InputFetched(before[i], fetch(i, before[i].downloadPath), lib)
      {
        StillUnplaced(before, index);
        var input := inputs[index];
        if !OnRoute(input.downloadPath, DOWNLOAD_ROUTE, lib) {
          return false;
        }
        var target := Target(index, input);
        NextTargetIsFree(before, inputs, index, files, lib.hash);
        DeliveredBytes(input, fetch(index, input.downloadPath), lib.hash);
        ghost var was := files;
        var fetched := DownloadArtifactFile(fetch(index, input.downloadPath), target, input, lib.hash);
        if !fetched {
          return false;
        }
        PlaceNext(before, inputs, index, was, fetch(index, input.downloadPath).body, lib.hash);
        inputs := inputs[index := input.(localPath := target)];
      }
      return true;
    }

    method DownloadCustomerArtifactInputs(owner: Owner, store: (nat, string) -> Reading, lib: Library) returns (ok: bool)
      requires HexHash(lib.hash)
      modifies this
      ensures ok <==> AllCopied(old(inputs), owner, store, lib)
      ensures ok ==> inputs == Placed(old(inputs), |old(inputs)|) && forall i :: 0 <= i < |inputs| ==> InPlace(inputs[i], files, lib.hash)
    {
      hide Target, Canonical, InPlace, Holds, Placed, KeyOf;
      if inputs == [] {
        return false;
      }
      files := map[];
      ghost var before := inputs;
      assert inputs == Placed(before, 0) by { NothingPlaced(before); }
      for index := 0 to |inputs|
        invariant PlacedUpTo(before, inputs, index, files, lib.hash) && |inputs| == |before|
        invariant forall i :: 0 <= i < index ==> InputCopied(before[i], i, owner, store, lib)
      {
        StillUnplaced(before, index);
        var input := inputs[index];
        if input.storageMode != 2 || input.ownerAgentId != owner.agentId {
          return false;
        }
        var key := KeyOf(input, owner, lib);
        if key.None? {
          return false;
        }
        var target := Target(index, input);
        NextTargetIsFree(before, inputs, index, files, lib.hash);
        HeldBytes(store(index, key.value), input.sizeBytes, input.sha256, lib.hash);
        ghost var was := files;
        var copied := CopyVerifiedCustomerObject(store(index, key.value), target, input, lib.hash);
        if !copied {
          return false;
        }
        PlaceNext(before, inputs, index, was, store(index, key.value).body.value, lib.hash);
        inputs := inputs[index := input.(localPath := target)];
      }
      return true;
    }
  }

  lemma {:induction false} NothingPlaced(inputs: seq<Input>)
    ensures Placed(inputs, 0) == inputs
  {
  }

  lemma {:induction false} StillUnplaced(inputs: seq<Input>, n: nat)
    requires n < |inputs|
    ensures Placed(inputs, n)[n] == inputs[n]
  {
  }

  lemma {:induction false} DeliveredBytes(input: Input, r: Response, hash: Bytes -> string)
    ensures Delivers(input, r, hash) ==> r.Response? && |r.body| == input.sizeBytes && hash(r.body) == Canonical(input.sha256)
  {
  }

  lemma {:induction false} HeldBytes(r: Reading, size: int, digest: string, hash: Bytes -> string)
    requires HexHash(hash)
    ensures Holds(r, size, digest, hash) ==> r.body.Some? && |r.body.value| == size && hash(r.body.value) == Canonical(digest)
  {
    hide TrimSpace;
    TrimSpaceCuts(digest);
    if Holds(r, size, digest, hash) {
      assert IsHexDigest(hash(r.body.value));
    }
  }
}
