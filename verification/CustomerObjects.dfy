/** Keys and references of objects in a customer's own store. */
module CustomerObjects {
  import opened Text
  import opened Paths

  // ----------------------------------------------------------------- valid keys

  predicate IsKeyChar(c: char) {
    'a' <= c <= 'z' || 'A' <= c <= 'Z' || IsDigit(c) || c == '.' || c == '_' || c == '-' || c == '/'
  }

  predicate KeyChars(s: string) { forall i :: 0 <= i < |s| ==> IsKeyChar(s[i]) }

  predicate ValidKey(key: string) {
    && key != "" && !HasPrefix(key, "/") && !HasSuffix(key, "/") && Clean(key) == key && !Contains(key, "..")
    && KeyChars(key)
  }

  method ValidCustomerObjectKey(key: string) returns (ok: bool)
    ensures ok <==> ValidKey(key)
  {
    hide Clean, Contains;
    if key == "" || HasPrefix(key, "/") || HasSuffix(key, "/") || Clean(key) != key || Contains(key, "..") {
      return false;
    }
    for i := 0 to |key|
      invariant KeyChars(key[..i])
    {
      var c := key[i];
      if 'a' <= c <= 'z' || 'A' <= c <= 'Z' || '0' <= c <= '9' || c == '.' || c == '_' || c == '-' || c == '/' {
        continue;
      }
      return false;
    }
    assert key[..|key|] == key;
    return true;
  }

  /** No two dots in a row. */
  predicate NoDots(s: string) { forall i :: 0 < i < |s| ==> s[i - 1] != '.' || s[i] != '.' }

  lemma {:induction false} NoDotsMeans(s: string)
    ensures NoDots(s) <==> !Contains(s, "..")
  {
    var dots := "..";
    if i :| 0 <= i <= |s| && dots <= s[i..] {
      assert s[i..][0] == s[i] == dots[0] && s[i..][1] == s[i + 1] == dots[1];
      assert s[i] == '.' && s[(i + 1) - 1] == '.';
    }
    if i :| 0 < i < |s| && s[i - 1] == '.' && s[i] == '.' {
      assert s[i - 1..][0] == '.' && s[i - 1..][1] == '.';
      assert dots <= s[i - 1..];
    }
  }

  /** The valid keys: proper components over the allowed characters, with no two dots in a row, and ".". */
  lemma {:induction false} ValidKeyMeans(key: string)
    ensures ValidKey(key) <==> KeyChars(key) && NoDots(key) && (AllPlain(Split(key, '/')) || key == ".")
  {
    hide Clean, Contains, KeyChars, Split;
    NoDotsMeans(key);
    var parts := Split(key, '/');
    JoinSplit(key, '/');
    if AllPlain(parts) {
      CleanOfPlain(parts);
      PlainEnds(key);
    }
    if ValidKey(key) && key != "." {
      CleanComponents(key);
      forall i | 0 <= i < |parts| ensures Plain(parts[i]) {
        ComponentOccurs(key, i);
      }
    }
    if key == "." {
      DotIsClean();
    }
  }

  lemma {:induction false} DotIsClean()
    ensures Clean(".") == "." && !HasPrefix(".", "/") && !HasSuffix(".", "/")
  {
    SplitPlain(".", '/');
    ResolveDot();
  }

  lemma {:induction false} PlainEnds(s: string)
    ensures s == "" || HasSuffix(s, "/") ==> !AllPlain(Split(s, '/'))
  {
    hide Split;
    SplitEmpty('/');
    if s == "" {
      assert !Plain(Split(s, '/')[0]);
    } else if HasSuffix(s, "/") {
      var front := Split(s[..|s| - 1], '/');
      SplitConcat(s[..|s| - 1], '/', "");
      assert s == s[..|s| - 1] + ['/'] + "";
      assert !Plain(Split(s, '/')[|front|]);
    }
  }

  // ------------------------------------------------------------------- output keys

  datatype Role = BuiltApk | BuildLog

  function FileName(role: Role): string { if role == BuiltApk then "built.apk" else "build.log" }

  datatype Task = Task(id: int, attempt: int)

  predicate ValidTask(t: Task) { t.id > 0 && t.attempt > 0 }

  function OutputParts(t: Task, role: Role): seq<string>
    requires ValidTask(t)
  {
    ["tasks", Digits(t.id), "attempts", Digits(t.attempt), FileName(role)]
  }

  /** customerOutputObjectKey */
  function OutputKey(prefix: string, t: Task, role: Role): Option<string> {
    if !ValidTask(t) then None else Some(JoinPath(prefix, OutputParts(t, role)))
  }

  predicate PlainPart(s: string) { Plain(s) && '/' !in s && KeyChars(s) && NoDots(s) }

  lemma {:induction false} DigitsArePlain(n: nat)
    ensures PlainPart(Digits(n))
  {
    var s := Digits(n);
    assert IsDigit(s[0]);
    assert forall c :: c in s ==> IsDigit(c);
  }

  lemma {:induction false} ConstantPartsArePlain(role: Role)
    ensures PlainPart("tasks") && PlainPart("attempts") && PlainPart(FileName(role))
  {
    var a, t := "attempts", "tasks";
    assert a[0] == 'a' && t[0] == 't';
    var n := FileName(role);
    assert n[0] == 'b';
  }

  lemma {:induction false} PartsArePlain(t: Task, role: Role)
    requires ValidTask(t)
    ensures forall i :: 0 <= i < 5 ==> PlainPart(OutputParts(t, role)[i])
  {
    hide PlainPart, Digits, FileName;
    DigitsArePlain(t.id);
    DigitsArePlain(t.attempt);
    ConstantPartsArePlain(role);
  }

  /** The components of a valid prefix other than ".". */
  lemma {:induction false} PrefixParts(prefix: string)
    requires ValidKey(prefix) && prefix != "."
    ensures AllPlain(Split(prefix, '/'))
  {
    hide Clean, Split;
    CleanComponents(prefix);
    NoDotsMeans(prefix);
    forall i | 0 <= i < |Split(prefix, '/')| ensures Plain(Split(prefix, '/')[i]) {
      ComponentOccurs(prefix, i);
    }
  }

  /** The components of an output key: those of the prefix, none for ".", then the task's own. */
  function KeyParts(prefix: string, t: Task, role: Role): seq<string>
    requires ValidTask(t)
  {
    (if prefix == "." then [] else Split(prefix, '/')) + OutputParts(t, role)
  }

  lemma {:induction false} AllPartsArePlain(prefix: string, t: Task, role: Role)
    requires ValidKey(prefix) && ValidTask(t)
    ensures var parts := KeyParts(prefix, t, role);
            AllPlain(parts) && forall i :: 0 <= i < |parts| ==> '/' !in parts[i]
  {
    hide ValidKey, Split, OutputParts;
    PartsArePlain(t, role);
    OwnParts(t, role);
    if prefix != "." {
      PrefixParts(prefix);
    }
  }

  lemma {:induction false} ResolveSnoc(parts: seq<string>, c: string)
    requires Plain(c)
    ensures Resolve(parts + [c], false) == Resolve(parts, false) + [c]
  {
    assert (parts + [c])[..|parts|] == parts;
  }

  lemma {:induction false} ResolveDot()
    ensures Resolve(["."], false) == []
  {
    assert ["."][..0] == [];
  }

  lemma {:induction false} DotAddsNothing(parts: seq<string>)
    requires AllPlain(parts)
    ensures Resolve(["."] + parts, false) == parts
  {
    hide Resolve;
    if parts == [] {
      assert ["."] + parts == ["."];
      ResolveDot();
    } else {
      var front, last := parts[..|parts| - 1], parts[|parts| - 1];
      DotAddsNothing(front);
      ResolveSnoc(["."] + front, last);
      assert parts == front + [last] && ["."] + parts == (["."] + front) + [last];
    }
  }

  lemma {:induction false} KeyIsJoin(prefix: string, t: Task, role: Role)
    requires ValidKey(prefix) && ValidTask(t)
    ensures OutputKey(prefix, t, role) == Some(Join(KeyParts(prefix, t, role), '/'))
    ensures Split(OutputKey(prefix, t, role).value, '/') == KeyParts(prefix, t, role)
    ensures Clean(OutputKey(prefix, t, role).value) == OutputKey(prefix, t, role).value
    ensures !HasPrefix(OutputKey(prefix, t, role).value, "/")
  {
    hide ValidKey, OutputParts, Resolve, Clean, Split, Join;
    var own, parts := OutputParts(t, role), KeyParts(prefix, t, role);
    assert |own| == 5 by { OwnParts(t, role); }
    AllPartsArePlain(prefix, t, role);
    CleanOfPlain(parts);
    assert prefix != "" by { ValidIsNotEmpty(prefix); }
    if prefix == "." {
      assert parts == own;
      DotPrefix(own);
    } else {
      JoinConcat(Split(prefix, '/'), own, '/');
      JoinSplit(prefix, '/');
      assert prefix + "/" + Join(own, '/') == prefix + ['/'] + Join(own, '/');
    }
  }

  lemma {:induction false} OwnParts(t: Task, role: Role)
    requires ValidTask(t)
    ensures |OutputParts(t, role)| == 5
  {
  }

  lemma {:induction false} ValidIsNotEmpty(key: string)
    requires ValidKey(key)
    ensures key != ""
  {
  }

  lemma {:induction false} DotPrefix(own: seq<string>)
    requires own != [] && AllPlain(own) && forall i :: 0 <= i < |own| ==> '/' !in own[i]
    ensures Clean("./" + Join(own, '/')) == Join(own, '/') && "." + "/" + Join(own, '/') == "./" + Join(own, '/')
  {
    hide Resolve, Split, Join;
    var s := "./" + Join(own, '/');
    SplitConcat(".", '/', Join(own, '/'));
    assert s == "." + ['/'] + Join(own, '/');
    SplitPlain(".", '/');
    SplitJoin(own, '/');
    DotAddsNothing(own);
    assert s[0] == '.';
  }

  /** Every (task, attempt, role) has its own key under any valid prefix, "." included. */
  lemma {:induction false} OutputKeysAreDistinct(prefix: string, t: Task, role: Role, u: Task, other: Role)
    requires ValidKey(prefix) && ValidTask(t) && ValidTask(u)
    requires OutputKey(prefix, t, role) == OutputKey(prefix, u, other)
    ensures t == u && role == other
  {
    hide ValidKey, JoinPath, Split, Digits;
    KeyIsJoin(prefix, t, role);
    KeyIsJoin(prefix, u, other);
    var head := if prefix == "." then [] else Split(prefix, '/');
    var a, b := KeyParts(prefix, t, role), KeyParts(prefix, u, other);
    assert forall i :: 0 <= i < 5 ==> a[|head| + i] == OutputParts(t, role)[i] && b[|head| + i] == OutputParts(u, other)[i];
    assert a[|head| + 1] == Digits(t.id) && b[|head| + 1] == Digits(u.id);
    assert a[|head| + 3] == Digits(t.attempt) && b[|head| + 3] == Digits(u.attempt);
    assert a[|head| + 4] == FileName(role) && b[|head| + 4] == FileName(other);
    assert Value(Digits(t.id)) == Value(Digits(u.id)) && Value(Digits(t.attempt)) == Value(Digits(u.attempt));
    FileNamesDiffer();
  }

  lemma {:induction false} FileNamesDiffer()
    ensures FileName(BuiltApk) != FileName(BuildLog)
  {
    assert FileName(BuiltApk)[4] == 't' && FileName(BuildLog)[4] == 'd';
  }

  /** The text of an output key; without a task identity there is none. */
  lemma {:induction false} OutputKeyText(prefix: string, t: Task, role: Role)
    requires ValidKey(prefix)
    ensures OutputKey(prefix, t, role).Some? <==> t.id >= 1 && t.attempt >= 1
    ensures OutputKey(prefix, t, role).Some? ==>
              OutputKey(prefix, t, role).value ==
              (if prefix == "." then "" else prefix + "/")
              + ("tasks/" + Itoa(t.id) + "/attempts/" + Itoa(t.attempt) + "/"
                 + match role case BuiltApk => "built.apk" case BuildLog => "build.log")
  {
    hide ValidKey, JoinPath, Split, Digits;
    if ValidTask(t) {
      KeyIsJoin(prefix, t, role);
      OwnText(t, role);
      var own := OutputParts(t, role);
      if prefix == "." {
        assert KeyParts(prefix, t, role) == own;
        assert "" + Join(own, '/') == Join(own, '/');
      } else {
        JoinConcat(Split(prefix, '/'), own, '/');
        JoinSplit(prefix, '/');
        assert prefix + "/" + Join(own, '/') == prefix + ['/'] + Join(own, '/');
      }
    }
  }

  lemma {:induction false} OwnText(t: Task, role: Role)
    requires ValidTask(t)
    ensures Join(OutputParts(t, role), '/') ==
            "tasks/" + Itoa(t.id) + "/attempts/" + Itoa(t.attempt) + "/" + match role case BuiltApk => "built.apk" case BuildLog => "build.log"
  {
    hide Digits, Join;
    var name := match role case BuiltApk => "built.apk" case BuildLog => "build.log";
    var id, attempt := Itoa(t.id), Itoa(t.attempt);
    JoinFive("tasks", id, "attempts", attempt, name);
    assert OutputParts(t, role) == ["tasks", id, "attempts", attempt, name];
    FlatText(id, attempt, name);
  }

  lemma {:induction false} FlatText(id: string, attempt: string, name: string)
    ensures "tasks" + ("/" + (id + ("/" + ("attempts" + ("/" + (attempt + ("/" + name)))))))
         == "tasks/" + id + "/attempts/" + attempt + "/" + name
  {
    assert "tasks" + "/" == "tasks/" && "/" + "attempts" + "/" == "/attempts/";
    var x := attempt + ("/" + name);
    assert "/" + ("attempts" + ("/" + x)) == "/attempts/" + x;
    assert id + ("/attempts/" + x) == id + "/attempts/" + x;
    assert "tasks" + ("/" + (id + "/attempts/" + x)) == "tasks/" + (id + "/attempts/" + x);
    assert "tasks/" + (id + "/attempts/" + x) == "tasks/" + id + "/attempts/" + attempt + "/" + name;
  }

  lemma {:induction false} JoinFive(a: string, b: string, c: string, d: string, e: string)
    ensures Join([a, b, c, d, e], '/') == a + ("/" + (b + ("/" + (c + ("/" + (d + ("/" + e)))))))
  {
    var de, cde, bcde := [d, e], [c, d, e], [b, c, d, e];
    assert de[1..] == [e] && cde[1..] == de && bcde[1..] == cde && [a, b, c, d, e][1..] == bcde;
    assert Join([e], '/') == e;
    assert Join(de, '/') == d + ("/" + e);
    assert Join(cde, '/') == c + ("/" + Join(de, '/'));
    assert Join(bcde, '/') == b + ("/" + Join(cde, '/'));
    assert Join([a, b, c, d, e], '/') == a + ("/" + Join(bcde, '/'));
  }

  // ------------------------------------------------- the keys produced are valid

  lemma {:induction false} JoinedCharacters(parts: seq<string>)
    requires parts != [] && forall i :: 0 <= i < |parts| ==> parts[i] != "" && KeyChars(parts[i]) && NoDots(parts[i])
    ensures var s := Join(parts, '/'); KeyChars(s) && NoDots(s) && s != "" && s[|s| - 1] == parts[|parts| - 1][|parts[|parts| - 1]| - 1]
  {
    if |parts| > 1 {
      JoinedCharacters(parts[1..]);
      var a, b := parts[0], Join(parts[1..], '/');
      var s := a + ['/'] + b;
      forall i | 0 <= i < |s| ensures IsKeyChar(s[i]) {
        assert s[i] == if i < |a| then a[i] else if i == |a| then '/' else b[i - |a| - 1];
      }
      forall i | 0 < i < |s| ensures s[i - 1] != '.' || s[i] != '.' {
        if i < |a| {
          assert s[i - 1] == a[i - 1] && s[i] == a[i];
        } else if i > |a| + 1 {
          assert s[i - 1] == b[i - |a| - 2] && s[i] == b[i - |a| - 1];
        }
      }
    }
  }

  lemma {:induction false} PartsOfKey(s: string)
    requires KeyChars(s) && NoDots(s)
    ensures forall i :: 0 <= i < |Split(s, '/')| ==> KeyChars(Split(s, '/')[i]) && NoDots(Split(s, '/')[i])
  {
    forall i | 0 <= i < |Split(s, '/')| ensures KeyChars(Split(s, '/')[i]) && NoDots(Split(s, '/')[i]) {
      ComponentOccurs(s, i);
      var part := Split(s, '/')[i];
      var k :| 0 <= k <= |s| && part <= s[k..];
      assert forall j :: 0 <= j < |part| ==> part[j] == s[k + j];
      forall j | 0 < j < |part| ensures part[j - 1] != '.' || part[j] != '.' {
        assert part[j - 1] == s[k + j - 1] && part[j] == s[k + j];
      }
    }
  }

  lemma {:induction false} LastPartEnds(t: Task, role: Role)
    requires ValidTask(t)
    ensures var last := OutputParts(t, role)[4]; last != "" && last[|last| - 1] != '/'
  {
    assert FileName(role) != "";
    assert FileName(BuiltApk)[8] == 'k' && FileName(BuildLog)[8] == 'g';
  }

  /** Output keys are valid keys, so the reference to one is always formed. */
  lemma {:induction false} OutputKeysAreValid(prefix: string, t: Task, role: Role)
    requires ValidKey(prefix) && ValidTask(t)
    ensures ValidKey(OutputKey(prefix, t, role).value)
  {
    hide JoinPath, Split, Clean, OutputParts, Contains, Join, Plain;
    var parts := KeyParts(prefix, t, role);
    KeyIsJoin(prefix, t, role);
    AllPartsArePlain(prefix, t, role);
    PartsArePlain(t, role);
    OwnParts(t, role);
    NoDotsMeans(prefix);
    PartsOfKey(prefix);
    forall i | 0 <= i < |parts| ensures parts[i] != "" && KeyChars(parts[i]) && NoDots(parts[i]) {
      PlainIsNotEmpty(parts[i]);
    }
    JoinedCharacters(parts);
    LastPartEnds(t, role);
    NoDotsMeans(Join(parts, '/'));
  }

  lemma {:induction false} PlainIsNotEmpty(s: string)
    requires Plain(s)
    ensures s != ""
  {
  }

  // -------------------------------------------------------------------- references

  const SCHEME := "customer-object://"

  function ReferenceText(agentId: int, key: string): string { SCHEME + (Itoa(agentId) + (['/'] + key)) }

  /** customerObjectReference */
  function ReferenceTo(agentId: int, key: string): Option<string> {
    if agentId <= 0 || !ValidKey(key) then None else Some(ReferenceText(agentId, key))
  }

  /** A reference is formed exactly for an agent and a valid key. */
  lemma {:induction false} ReferencesAreFormed(agentId: int, key: string)
    ensures ReferenceTo(agentId, key) ==
            if agentId >= 1 && ValidKey(key) then Some("customer-object://" + Itoa(agentId) + "/" + key) else None
  {
    hide ValidKey, Itoa;
    assert "customer-object://" + Itoa(agentId) + "/" + key == "customer-object://" + (Itoa(agentId) + (['/'] + key));
  }

  /** What url.Parse reports of a text. */
  datatype Url = Url(scheme: string, host: string, hasUser: bool, path: string, query: string, fragment: string)

  predicate Within(key: string, prefix: string) { key == prefix || HasPrefix(key, prefix + "/") }

  /** parseCustomerObjectReference */
  function ParseReference(reference: string, agentId: int, prefix: string, parse: string -> Option<Url>): Option<string> {
    var value := TrimSpace(reference);
    var u := parse(value);
    if u.None? || u.value.scheme != "customer-object" || u.value.host != Itoa(agentId) || u.value.hasUser
       || u.value.query != "" || u.value.fragment != "" || Contains(value, "%") then None
    else
      var key := TrimPrefix(u.value.path, "/");
      if !ValidKey(key) || !Within(key, prefix) || value != ReferenceText(agentId, key) then None else Some(key)
  }

  /** url.Parse splits a plain reference as RFC 3986, section 3, says. */
  ghost predicate UrlFaithful(parse: string -> Option<Url>) {
    forall agentId: int, key: string :: agentId > 0 && ValidKey(key) ==>
      parse(ReferenceText(agentId, key)) == Some(Url("customer-object", Itoa(agentId), false, "/" + key, "", ""))
  }

  /** Whatever url.Parse does, an accepted reference is the canonical text of a valid key of this
      agent under the prefix. */
  lemma {:induction false} AcceptedReferenceIsCanonical(reference: string, agentId: int, prefix: string, parse: string -> Option<Url>)
    ensures var key := ParseReference(reference, agentId, prefix, parse);
            key.Some? ==> ValidKey(key.value) && Within(key.value, prefix) && TrimSpace(reference) == ReferenceText(agentId, key.value)
  {
    hide TrimSpace, ValidKey, Within, ReferenceText, Contains, Itoa;
  }

  lemma {:induction false} ReferencesAreDistinct(a: int, key: string, b: int, other: string)
    requires ReferenceText(a, key) == ReferenceText(b, other)
    ensures a == b && key == other
  {
    hide Itoa;
    ItoaShape(a);
    ItoaShape(b);
    assert ReferenceText(a, key)[|SCHEME|..] == Itoa(a) + (['/'] + key) == Itoa(a) + ['/'] + key;
    assert ReferenceText(b, other)[|SCHEME|..] == Itoa(b) + (['/'] + other) == Itoa(b) + ['/'] + other;
    FirstSeparatorUnique(Itoa(a), key, Itoa(b), other, '/');
    ItoaInjective(a, b);
  }

  /** Accepted references and (agent, key) pairs correspond one to one, whatever url.Parse does and
      whoever accepts them: two accepted texts name the same agent and key exactly when they are the
      same text apart from surrounding spaces. */
  lemma {:induction false} AcceptedReferencesCorrespond(
      a: string, agentId: int, prefix: string, parse: string -> Option<Url>,
      b: string, otherId: int, otherPrefix: string, otherParse: string -> Option<Url>)
    requires ParseReference(a, agentId, prefix, parse).Some? && ParseReference(b, otherId, otherPrefix, otherParse).Some?
    ensures TrimSpace(a) == TrimSpace(b) <==>
            agentId == otherId && ParseReference(a, agentId, prefix, parse) == ParseReference(b, otherId, otherPrefix, otherParse)
  {
    hide ParseReference, TrimSpace, ValidKey, Within, ReferenceText;
    AcceptedReferenceIsCanonical(a, agentId, prefix, parse);
    AcceptedReferenceIsCanonical(b, otherId, otherPrefix, otherParse);
    var key, other := ParseReference(a, agentId, prefix, parse).value, ParseReference(b, otherId, otherPrefix, otherParse).value;
    if TrimSpace(a) == TrimSpace(b) {
      ReferencesAreDistinct(agentId, key, otherId, other);
    }
  }

  lemma {:induction false} ReferenceIsTrimmed(agentId: int, key: string)
    requires agentId > 0 && ValidKey(key)
    ensures TrimSpace(ReferenceText(agentId, key)) == ReferenceText(agentId, key)
    ensures !Contains(ReferenceText(agentId, key), "%")
  {
    hide Clean, Contains, Digits, TrimSpace;
    var s := ReferenceText(agentId, key);
    assert s[|s| - 1] == key[|key| - 1];
    assert IsKeyChar(key[|key| - 1]);
    assert s[0] == 'c';
    NoSpaceAtEnds(s);
    forall c | c in s ensures c != '%' {
      if c in key {
        var i :| 0 <= i < |key| && key[i] == c;
        assert IsKeyChar(key[i]);
      }
    }
    ContainedChars(s, "%");
    assert '%' in "%";
  }

  lemma {:induction false} NoSpaceAtEnds(s: string)
    requires s != "" && (IsKeyChar(s[0])) && IsKeyChar(s[|s| - 1])
    ensures TrimSpace(s) == s
  {
    assert !IsSpace(s[0]) && !IsSpace(s[|s| - 1]);
  }

  /** What is accepted: the references of this agent to valid keys under the prefix, with any spaces
      around them, and nothing else. */
  lemma {:induction false} AcceptedReferences(reference: string, agentId: int, prefix: string, key: string, parse: string -> Option<Url>)
    requires agentId > 0 && UrlFaithful(parse)
    ensures ParseReference(reference, agentId, prefix, parse) == Some(key) <==>
            && TrimSpace(reference) == "customer-object://" + Itoa(agentId) + "/" + key && ValidKey(key)
            && (key == prefix || (|key| > |prefix| && key[..|prefix|] == prefix && key[|prefix|] == '/'))
  {
    hide TrimSpace, ValidKey, Contains, Itoa, ReferenceText, ParseReference;
    AcceptedReferenceIsCanonical(reference, agentId, prefix, parse);
    ReferencesAreFormed(agentId, key);
    WithinMeans(key, prefix);
    if TrimSpace(reference) == ReferenceText(agentId, key) && ValidKey(key) && Within(key, prefix) {
      ParseOfReference(agentId, key, prefix, parse);
      ReferenceIsTrimmed(agentId, key);
      ParseIgnoresSpaces(reference, agentId, prefix, parse);
    }
  }

  lemma {:induction false} ParseIgnoresSpaces(reference: string, agentId: int, prefix: string, parse: string -> Option<Url>)
    requires TrimSpace(TrimSpace(reference)) == TrimSpace(reference)
    ensures ParseReference(reference, agentId, prefix, parse) == ParseReference(TrimSpace(reference), agentId, prefix, parse)
  {
    hide TrimSpace, ValidKey, Contains, Itoa, ReferenceText;
  }

  lemma {:induction false} WithinMeans(key: string, prefix: string)
    ensures Within(key, prefix) <==> key == prefix || (|key| > |prefix| && key[..|prefix|] == prefix && key[|prefix|] == '/')
  {
    if HasPrefix(key, prefix + "/") {
      assert key[..|prefix|] == (prefix + "/")[..|prefix|];
      assert key[|prefix|] == (prefix + "/")[|prefix|];
    }
    if |key| > |prefix| && key[..|prefix|] == prefix && key[|prefix|] == '/' {
      assert key[..|prefix| + 1] == prefix + "/";
    }
  }

  /** Reading a reference back gives its key exactly when the key lies under the prefix. */
  lemma {:induction false} ParseOfReference(agentId: int, key: string, prefix: string, parse: string -> Option<Url>)
    requires agentId > 0 && ValidKey(key) && UrlFaithful(parse)
    ensures ParseReference(ReferenceText(agentId, key), agentId, prefix, parse) == if Within(key, prefix) then Some(key) else None
  {
    hide ValidKey, Contains, Itoa, TrimSpace, ReferenceText, Within;
    ReferenceIsTrimmed(agentId, key);
    assert TrimPrefix("/" + key, "/") == key;
  }

  /** An output's reference reads back under its own prefix exactly when that prefix is not ".". */
  lemma {:induction false} OutputReferenceReadsBack(agentId: int, prefix: string, t: Task, role: Role, parse: string -> Option<Url>)
    requires agentId > 0 && ValidKey(prefix) && ValidTask(t) && UrlFaithful(parse)
    ensures var key := OutputKey(prefix, t, role).value;
            && ReferenceTo(agentId, key) == Some(ReferenceText(agentId, key))
            && (ParseReference(ReferenceText(agentId, key), agentId, prefix, parse) == Some(key) <==> prefix != ".")
  {
    hide ValidKey, JoinPath, Split, ReferenceText, ParseReference, UrlFaithful, OutputParts;
    var key := OutputKey(prefix, t, role).value;
    OutputKeysAreValid(prefix, t, role);
    ParseOfReference(agentId, key, prefix, parse);
    KeyIsJoin(prefix, t, role);
    OwnParts(t, role);
    if prefix == "." {
      StartsWithTasks(t, role);
    } else {
      JoinConcat(Split(prefix, '/'), OutputParts(t, role), '/');
      JoinSplit(prefix, '/');
      assert prefix + "/" <= key;
    }
  }

  lemma {:induction false} StartsWithTasks(t: Task, role: Role)
    requires ValidTask(t)
    ensures var s := Join(OutputParts(t, role), '/'); s != "" && s[0] == 't'
    ensures [] + OutputParts(t, role) == OutputParts(t, role)
  {
    hide Digits;
    assert "tasks"[0] == 't';
  }
}
