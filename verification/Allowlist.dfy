/** The egress proxy's allowlist: its parser, and matching by labels against matching by text. */
module Allowlist {
  import opened Text
  import opened Utf8

  const MAXIMUM_RULES := 1024

  datatype Rule = Rule(host: string, port: string, suffix: bool)

  // ------------------------------------------------------- library: host and port

  function FirstIndex(s: string, c: char): (i: int)
    ensures -1 <= i < |s| && (i >= 0 ==> s[i] == c) && (i < 0 <==> c !in s)
    ensures forall k :: 0 <= k < i ==> s[k] != c
  {
    if s == "" then -1 else if s[0] == c then 0
    else
      var i := FirstIndex(s[1..], c);
      assert s == [s[0]] + s[1..];
      if i < 0 then -1 else i + 1
  }

  function LastIndex(s: string, c: char): (i: int)
    ensures -1 <= i < |s| && (i >= 0 ==> s[i] == c) && (i < 0 <==> c !in s)
    ensures forall k :: i < k < |s| ==> s[k] != c
  {
    if s == "" then -1 else if s[|s| - 1] == c then |s| - 1
    else
      assert s == s[..|s| - 1] + [s[|s| - 1]];
      LastIndex(s[..|s| - 1], c)
  }

  /** net.SplitHostPort */
  function SplitHostPort(s: string): Option<(string, string)> {
    var i := LastIndex(s, ':');
    if i < 0 then None
    else if s[0] == '[' then
      var end := FirstIndex(s, ']');
      if end < 0 || end + 1 != i then None
      else if '[' in s[1..] || ']' in s[end + 1..] then None
      else Some((s[1..end], s[i + 1..]))
    else if ':' in s[..i] || '[' in s || ']' in s then None
    else Some((s[..i], s[i + 1..]))
  }

  /** strconv.Atoi, as far as the port test needs it. */
  predicate IsPort(s: string) {
    var digits := if s != "" && (s[0] == '+' || s[0] == '-') then s[1..] else s;
    digits != "" && AllDigits(digits) && !(s[0] == '-') && 1 <= Value(digits) <= 65535
  }

  // ------------------------------------------------------------------ host names

  /** The form both rule hosts and requested hosts are compared in. */
  function Normalise(host: string): string { ToLower(TrimSuffix(TrimSpace(host), ".")) }

  function Labels(host: string): (l: seq<string>)
    ensures |l| >= 1
  {
    Split(host, '.')
  }

  predicate IsHostChar(c: char) { 'a' <= c <= 'z' || IsDigit(c) || c == '-' }

  predicate IsLabel(l: string) {
    1 <= Size(l) <= 63 && l[0] != '-' && l[|l| - 1] != '-' && forall i :: 0 <= i < |l| ==> IsHostChar(l[i])
  }

  predicate IsDNSName(s: string) {
    1 <= Size(s) <= 253 && forall i :: 0 <= i < |Labels(s)| ==> IsLabel(Labels(s)[i])
  }

  method ValidDNSName(value: string) returns (ok: bool)
    ensures ok <==> IsDNSName(value)
  {
    hide Split, Size;
    if Size(value) == 0 || Size(value) > 253 {
      return false;
    }
    var labels := Labels(value);
    for i := 0 to |labels|
      invariant forall k :: 0 <= k < i ==> IsLabel(labels[k])
    {
      var part := labels[i];
      SizeOfEmpty(part);
      if Size(part) == 0 || Size(part) > 63 || part[0] == '-' || part[|part| - 1] == '-' {
        return false;
      }
      for j := 0 to |part|
        invariant forall k :: 0 <= k < j ==> IsHostChar(part[k])
      {
        var c := part[j];
        if (c < 'a' || c > 'z') && (c < '0' || c > '9') && c != '-' {
          return false;
        }
      }
    }
    return true;
  }

  lemma {:induction false} SizeOfEmpty(s: string)
    ensures Size(s) == 0 <==> s == ""
  {
  }

  /** The length of a name on the wire: a length octet before each label and the root's zero octet. */
  function WireSize(labels: seq<string>): nat {
    if labels == [] then 1 else 1 + |labels[0]| + WireSize(labels[1..])
  }

  lemma {:induction false} WireSizeOfText(labels: seq<string>)
    requires labels != []
    ensures WireSize(labels) == |Join(labels, '.')| + 2
  {
    if |labels| > 1 {
      WireSizeOfText(labels[1..]);
    } else {
      assert labels[1..] == [];
    }
  }

  predicate WithinLimits(labels: seq<string>) {
    && (forall i :: 0 <= i < |labels| ==> 1 <= |labels[i]| <= 63)
    && WireSize(labels) <= 255
  }

  predicate HostChars(labels: seq<string>) {
    forall i :: 0 <= i < |labels| ==>
      && (forall j :: 0 <= j < |labels[i]| ==> IsHostChar(labels[i][j]))
      && (labels[i] != "" ==> labels[i][0] != '-' && labels[i][|labels[i]| - 1] != '-')
  }

  lemma {:induction false} HostCharsAreAscii(s: string)
    requires forall c :: c in s ==> IsHostChar(c) || c == '.'
    ensures Size(s) == |s|
  {
    hide Size;
    assert forall i :: 0 <= i < |s| ==> s[i] in s;
    AsciiSize(s);
  }

  lemma {:induction false} JoinChars(parts: seq<string>, sep: char)
    ensures forall c :: c in Join(parts, sep) ==> c == sep || exists i :: 0 <= i < |parts| && c in parts[i]
  {
    if |parts| > 1 {
      JoinChars(parts[1..], sep);
      forall c | c in Join(parts, sep) ensures c == sep || exists i :: 0 <= i < |parts| && c in parts[i] {
        if c != sep && c !in parts[0] {
          var i :| 0 <= i < |parts[1..]| && c in parts[1..][i];
          assert c in parts[i + 1];
        }
      }
    }
  }

  /** The names the code accepts are exactly those within the label and name limits of RFC 1035,
      section 2.3.4, whose labels are letters, digits and inner hyphens. */
  lemma {:induction false} DNSNamesMeetLimits(s: string)
    ensures IsDNSName(s) <==> WithinLimits(Labels(s)) && HostChars(Labels(s))
  {
    hide Split, Size, Join, WireSize;
    var labels := Labels(s);
    JoinSplit(s, '.');
    JoinChars(labels, '.');
    WireSizeOfText(labels);
    if HostChars(labels) {
      forall c | c in s ensures IsHostChar(c) || c == '.' {
      }
      HostCharsAreAscii(s);
      forall i | 0 <= i < |labels| ensures Size(labels[i]) == |labels[i]| {
        HostCharsAreAscii(labels[i]);
      }
      SizeOfEmpty(s);
      EmptyNameHasEmptyLabel(s);
    } else {
      EmptyLabels(labels);
    }
    if IsDNSName(s) {
      forall i | 0 <= i < |labels| ensures IsLabel(labels[i]) {
      }
    }
  }

  lemma {:induction false} EmptyLabels(labels: seq<string>)
    ensures forall i :: 0 <= i < |labels| && IsLabel(labels[i]) ==> labels[i] != ""
  {
    forall i | 0 <= i < |labels| ensures IsLabel(labels[i]) ==> labels[i] != "" {
      SizeOfEmpty(labels[i]);
    }
  }

  lemma {:induction false} EmptyNameHasEmptyLabel(s: string)
    ensures s == "" ==> Labels(s)[0] == ""
  {
  }

  // --------------------------------------------------------------------- parsing

  function RuleFor(host: string, port: string): Rule {
    if HasPrefix(host, "*.") then Rule(TrimPrefix(host, "*."), port, true) else Rule(host, port, false)
  }

  predicate HostAllowed(r: Rule, isIP: string -> bool) {
    if r.suffix then !isIP(r.host) && IsDNSName(r.host) else isIP(r.host) || IsDNSName(r.host)
  }

  function ParsedRule(line: string, isIP: string -> bool): Option<Rule> {
    var hp := SplitHostPort(line);
    if hp.None? || !IsPort(hp.value.1) then None
    else
      var host := Normalise(hp.value.0);
      if host == "" || ContainsAny(host, " /?#@") || !HostAllowed(RuleFor(host, hp.value.1), isIP) then None
      else Some(RuleFor(host, hp.value.1))
  }

  method ParseRule(value: string, isIP: string -> bool) returns (r: Option<Rule>)
    ensures r == ParsedRule(value, isIP)
    ensures r.Some? ==>
              && IsPort(r.value.port)
              && (isIP(r.value.host) || (WithinLimits(Labels(r.value.host)) && HostChars(Labels(r.value.host))))
              && (r.value.suffix ==> !isIP(r.value.host))
  {
    hide SplitHostPort, Normalise, IsPort, ContainsAny, Labels, IsDNSName, WithinLimits, HostChars, TrimPrefix, HasPrefix;
    var hp := SplitHostPort(value);
    if hp.None? || !IsPort(hp.value.1) {
      return None;
    }
    var host := Normalise(hp.value.0);
    if host == "" || ContainsAny(host, " /?#@") {
      return None;
    }
    var parsed := Rule(host, hp.value.1, false);
    if HasPrefix(host, "*.") {
      parsed := parsed.(suffix := true, host := TrimPrefix(host, "*."));
      var name := ValidDNSName(parsed.host);
      if isIP(parsed.host) || !name {
        return None;
      }
    } else {
      var name := ValidDNSName(host);
      if !isIP(host) && !name {
        return None;
      }
    }
    DNSNamesMeetLimits(parsed.host);
    return Some(parsed);
  }

  function LineText(line: string): string {
    var i := FirstIndex(line, '#');
    TrimSpace(if i < 0 then line else line[..i])
  }

  /** The target lines of a file, comments and blank lines gone. */
  function Targets(lines: seq<string>): seq<string> {
    if lines == [] then []
    else Targets(lines[..|lines| - 1]) + if LineText(lines[|lines| - 1]) == "" then [] else [LineText(lines[|lines| - 1])]
  }

  datatype ParseError = TooManyRules | BadLine(number: nat) | ReadFailed | NoTargets
  datatype Parsed = Rules(rules: seq<Rule>) | Rejected(error: ParseError)

  /** A file is accepted exactly when it could be read and holds 1 to 1024 targets that all parse;
      the result is then one rule for each target, in order. */
  method ParseAllowlist(lines: seq<string>, readOk: bool, isIP: string -> bool) returns (p: Parsed)
    ensures p.Rules? <==>
            && readOk && 1 <= |Targets(lines)| <= 1024
            && forall i :: 0 <= i < |Targets(lines)| ==> ParsedRule(Targets(lines)[i], isIP).Some?
    ensures p.Rules? ==>
              && |p.rules| == |Targets(lines)|
              && forall i :: 0 <= i < |p.rules| ==> ParsedRule(Targets(lines)[i], isIP) == Some(p.rules[i])
    ensures p.Rejected? && p.error.BadLine? ==>
              && 1 <= p.error.number <= |lines|
              && var line := LineText(lines[p.error.number - 1]); line != "" && ParsedRule(line, isIP).None?
  {
    hide ParsedRule, LineText;
    var rules: seq<Rule> := [];
    for i := 0 to |lines|
      invariant |rules| <= MAXIMUM_RULES && |rules| == |Targets(lines[..i])|
      invariant forall k :: 0 <= k < |rules| ==> ParsedRule(Targets(lines[..i])[k], isIP) == Some(rules[k])
    {
      TargetsGrow(lines, i);
      assert lines[..i + 1][..i] == lines[..i];
      var line := LineText(lines[i]);
      if line == "" {
        continue;
      }
      assert Targets(lines[..i + 1])[|rules|] == line;
      if |rules| >= MAXIMUM_RULES {
        return Rejected(TooManyRules);
      }
      var r := ParseRule(line, isIP);
      if r.None? {
        return Rejected(BadLine(i + 1));
      }
      rules := rules + [r.value];
    }
    assert lines[..|lines|] == lines;
    if !readOk {
      return Rejected(ReadFailed);
    }
    if |rules| == 0 {
      return Rejected(NoTargets);
    }
    return Rules(rules);
  }

  lemma {:induction false} TargetsGrow(lines: seq<string>, i: nat)
    requires i < |lines|
    ensures Targets(lines[..i + 1]) <= Targets(lines)
    decreases |lines|
  {
    hide LineText;
    if i < |lines| - 1 {
      assert lines[..|lines| - 1][..i + 1] == lines[..i + 1];
      TargetsGrow(lines[..|lines| - 1], i);
    } else {
      assert lines[..i + 1] == lines;
    }
  }

  // -------------------------------------------------------------------- matching

  /** `tail` is a proper suffix of `whole`. */
  predicate ProperSuffix(tail: seq<string>, whole: seq<string>) {
    |tail| < |whole| && whole[|whole| - |tail|..] == tail
  }

  /** The label-wise meaning of a rule. */
  predicate Matches(r: Rule, host: string, port: string) {
    r.port == port &&
    if r.suffix then ProperSuffix(Labels(r.host), Labels(host)) else host == r.host
  }

  /** Ending in "." + domain is the same as having the domain's labels as a proper suffix. */
  lemma {:induction false} SuffixMeansLabels(host: string, domain: string)
    ensures HasSuffix(host, "." + domain) <==> ProperSuffix(Labels(domain), Labels(host))
  {
    hide Split, Join;
    var whole, tail := Labels(host), Labels(domain);
    if HasSuffix(host, "." + domain) {
      var head := host[..|host| - |domain| - 1];
      assert host == head + ("." + domain) == head + ['.'] + domain;
      SplitConcat(head, '.', domain);
      assert whole == Split(head, '.') + tail;
    }
    if ProperSuffix(tail, whole) {
      var front := whole[..|whole| - |tail|];
      JoinSplit(host, '.');
      JoinSplit(domain, '.');
      assert whole == front + tail;
      JoinConcat(front, tail, '.');
      var head := Join(front, '.');
      assert host == head + ['.'] + domain;
      assert host[|host| - |domain| - 1..] == "." + domain;
    }
  }

  /** Allows on raw text: the requested host, once normalised, against some rule's labels. */
  method Allows(rules: seq<Rule>, host: string, port: string) returns (ok: bool)
    ensures ok <==> exists i :: 0 <= i < |rules| && Matches(rules[i], Normalise(host), port)
  {
    hide Normalise, Labels, HasSuffix;
    var name := Normalise(host);
    for i := 0 to |rules|
      invariant forall k :: 0 <= k < i ==> !Matches(rules[k], name, port)
    {
      var item := rules[i];
      if item.port != port {
        continue;
      }
      SuffixMeansLabels(name, item.host);
      if (!item.suffix && name == item.host) || (item.suffix && name != item.host && HasSuffix(name, "." + item.host)) {
        return true;
      }
    }
    return false;
  }

  /** A wildcard never lets its own domain through, nor a name that merely ends in the same letters. */
  lemma {:induction false} WildcardNeedsWholeLabels(r: Rule, extra: string, port: string)
    requires r.suffix && '.' !in extra
    ensures !Matches(r, r.host, port)
    ensures extra != "" ==> !Matches(r, extra + r.host, port)
    ensures r.port == port ==> Matches(r, extra + "." + r.host, port)
  {
    hide Split;
    SplitConcat(extra, '.', r.host);
    assert extra + "." + r.host == extra + ['.'] + r.host;
    SplitPlain(extra, '.');
    if extra != "" {
      GluedLabels(extra, r.host);
    }
  }

  lemma {:induction false} GluedLabels(extra: string, host: string)
    requires '.' !in extra
    ensures |Labels(extra + host)| == |Labels(host)|
  {
    if extra == "" {
      assert extra + host == host;
    } else {
      assert (extra + host)[0] == extra[0] && (extra + host)[1..] == extra[1..] + host;
      GluedLabels(extra[1..], host);
    }
  }

  // --------------------------------------------------------- spellings of one host

  /** A host as it is meant to be written: no spaces around it and no trailing dot. */
  predicate Bare(host: string) {
    host != "" && !IsSpace(host[0]) && !IsSpace(host[|host| - 1]) && host[|host| - 1] != '.'
  }

  /** Hosts are compared without regard to letter case, surrounding spaces and one trailing dot, and
      to nothing else. */
  lemma {:induction false} SpellingsAgree(a: string, b: string, before: string, after: string)
    requires Bare(a) && Bare(b) && AllSpaces(before) && AllSpaces(after)
    ensures Normalise(a) == Normalise(b) <==> SameFolded(a, b)
    ensures Normalise(before + a + after) == Normalise(a) && Normalise(before + (a + ".") + after) == Normalise(a)
  {
    hide TrimSpace, ToLower, SameFolded, IsSpace;
    TrimSpaceFinds("", a, "");
    TrimSpaceFinds("", b, "");
    assert "" + a + "" == a && "" + b + "" == b;
    TrimSpaceFinds(before, a, after);
    assert !IsSpace('.') by { DotIsNoSpace(); }
    TrimSpaceFinds(before, a + ".", after);
    assert (a + ".")[..|a + "."| - 1] == a;
    OneCharSuffix(a);
    OneCharSuffix(b);
    OneCharSuffix(a + ".");
    CaseMapsIdentify(a, b);
  }

  lemma {:induction false} DotIsNoSpace()
    ensures !IsSpace('.')
  {
  }

  lemma {:induction false} OneCharSuffix(s: string)
    requires s != ""
    ensures TrimSuffix(s, ".") == if s[|s| - 1] == '.' then s[..|s| - 1] else s
  {
    assert s[|s| - 1..] == [s[|s| - 1]];
  }

  // ------------------------------------------------------- addresses, ports and comments

  predicate NoMarks(s: string) { ':' !in s && '[' !in s && ']' !in s }

  /** The two forms of a target: a host without colons, or one in brackets. */
  lemma {:induction false} HostPortForms(s: string, h: string, p: string)
    ensures SplitHostPort(s) == Some((h, p)) <==>
            && NoMarks(p)
            && ((NoMarks(h) && s == h + ":" + p) || ('[' !in h && ']' !in h && s == "[" + h + "]:" + p))
  {
    if SplitHostPort(s) == Some((h, p)) {
      SplitHasForm(s, h, p);
    }
    if NoMarks(p) && NoMarks(h) && s == h + ":" + p {
      PlainFormSplits(h, p);
    }
    if NoMarks(p) && '[' !in h && ']' !in h && s == "[" + h + "]:" + p {
      BracketFormSplits(h, p);
    }
  }

  lemma {:induction false} SplitHasForm(s: string, h: string, p: string)
    requires SplitHostPort(s) == Some((h, p))
    ensures NoMarks(p)
    ensures (NoMarks(h) && s == h + ":" + p) || ('[' !in h && ']' !in h && s == "[" + h + "]:" + p)
  {
    hide FirstIndex, LastIndex;
    var i := LastIndex(s, ':');
    assert p == s[i + 1..] && forall k :: 0 <= k < |p| ==> p[k] == s[i + 1 + k];
    if s[0] == '[' {
      BracketForm(s, FirstIndex(s, ']'), h, p);
    } else {
      assert h == s[..i] && forall k :: 0 <= k < |h| ==> h[k] == s[k];
      assert s == s[..i] + [s[i]] + s[i + 1..];
    }
  }

  lemma {:induction false} BracketForm(s: string, end: nat, h: string, p: string)
    requires 0 < end && end + 1 < |s| && s[0] == '[' && s[end] == ']' && s[end + 1] == ':'
    requires h == s[1..end] && p == s[end + 2..] && '[' !in s[1..] && ']' !in s[end + 1..]
    requires forall k :: 0 <= k < end ==> s[k] != ']'
    requires forall k :: end + 1 < k < |s| ==> s[k] != ':'
    ensures NoMarks(p) && '[' !in h && ']' !in h && s == "[" + h + "]:" + p
  {
    assert forall k :: 0 <= k < |h| ==> h[k] == s[1 + k] && h[k] == s[1..][k];
    assert s[1..] == h + ("]:" + p) && s[end + 1..] == [':'] + p;
    assert forall k :: 0 <= k < |p| ==> p[k] == s[end + 2 + k];
  }

  lemma {:induction false} PlainFormSplits(h: string, p: string)
    requires NoMarks(h) && NoMarks(p)
    ensures SplitHostPort(h + ":" + p) == Some((h, p))
  {
    hide FirstIndex, LastIndex;
    var s := h + ":" + p;
    assert s[|h|] == ':' && s[..|h|] == h && s[|h| + 1..] == p;
    assert forall k :: 0 <= k < |h| ==> s[k] == h[k];
    assert forall k :: |h| < k < |s| ==> s[k] == p[k - |h| - 1];
    assert s[0] == if h == "" then ':' else h[0];
  }

  lemma {:induction false} BracketFormSplits(h: string, p: string)
    requires '[' !in h && ']' !in h && NoMarks(p)
    ensures SplitHostPort("[" + h + "]:" + p) == Some((h, p))
  {
    hide FirstIndex, LastIndex;
    var s, end := "[" + h + "]:" + p, |h| + 1;
    BracketFacts(h, p);
    assert FirstIndex(s, ']') == end && LastIndex(s, ':') == end + 1;
  }

  lemma {:induction false} BracketFacts(h: string, p: string)
    requires '[' !in h && ']' !in h && NoMarks(p)
    ensures var s, end := "[" + h + "]:" + p, |h| + 1;
            && s[0] == '[' && s[end] == ']' && s[end + 1] == ':' && s[1..end] == h && s[end + 2..] == p
            && (forall k :: 0 <= k < end ==> s[k] != ']') && (forall k :: end + 1 < k < |s| ==> s[k] != ':')
            && '[' !in s[1..] && ']' !in s[end + 1..]
  {
    var s, end := "[" + h + "]:" + p, |h| + 1;
    assert s[1..] == h + "]:" + p && s[end + 1..] == [':'] + p;
    assert forall k :: 0 < k < end ==> s[k] == h[k - 1];
    assert forall k :: end + 1 < k < |s| ==> s[k] == p[k - end - 2];
  }

  /** The number that an accepted port text denotes. */
  function PortNumber(port: string): nat
    requires IsPort(port)
  {
    Value(if port[0] == '+' then port[1..] else port)
  }

  /** The accepted ports: digits that denote 1 to 65535, after at most one plus sign. */
  lemma {:induction false} PortForms(s: string)
    ensures IsPort(s) <==>
            exists d :: (s == d || s == "+" + d) && d != "" && AllDigits(d) && 1 <= Value(d) <= 65535
    ensures IsPort(s) ==> forall d :: (s == d || s == "+" + d) && AllDigits(d) ==> PortNumber(s) == Value(d)
  {
    hide Value;
    assert forall d :: s == "+" + d ==> s[1..] == d;
    if IsPort(s) {
      var d := if s[0] == '+' then s[1..] else s;
      assert s == d || s == "+" + d;
    }
    if d :| (s == d || s == "+" + d) && d != "" && AllDigits(d) && 1 <= Value(d) <= 65535 {
      if s == "+" + d {
        assert s[1..] == d;
      }
    }
  }

  /** A comment and the spaces around a target are no part of it. */
  lemma {:induction false} CommentsAreIgnored(before: string, target: string, after: string, comment: string)
    requires AllSpaces(before) && AllSpaces(after) && '#' !in target
    requires target != "" ==> !IsSpace(target[0]) && !IsSpace(target[|target| - 1])
    ensures LineText(before + target + after) == target
    ensures LineText(before + target + after + "#" + comment) == target
  {
    hide TrimSpace, FirstIndex;
    var text := before + target + after;
    TrimSpaceFinds(before, target, after);
    assert '#' !in before && '#' !in after by { HashIsNoSpace(before); HashIsNoSpace(after); }
    var line := text + "#" + comment;
    assert line[|text|] == '#' && line[..|text|] == text;
    assert forall k :: 0 <= k < |text| ==> line[k] == text[k] && text[k] in text;
  }

  lemma {:induction false} HashIsNoSpace(s: string)
    requires AllSpaces(s)
    ensures '#' !in s
  {
  }

  // ------------------------------------------------------- writing rules, and reading them

  function HostText(r: Rule): string { if r.suffix then "*." + r.host else r.host }

  function RuleText(r: Rule): string { HostText(r) + ":" + r.port }

  predicate HostTextChar(c: char) { IsHostChar(c) || c == '.' || c == '*' }

  lemma {:induction false} HostTextIsNormal(h: string)
    requires h != "" && h[|h| - 1] != '.' && forall c :: c in h ==> HostTextChar(c)
    ensures Normalise(h) == h
    ensures !ContainsAny(h, " /?#@")
  {
    assert forall i :: 0 <= i < |h| ==> h[i] in h;
    assert TrimSpace(h) == h;
    assert ToLower(h) == h;
  }

  lemma {:induction false} PortChars(port: string)
    requires IsPort(port)
    ensures forall i :: 0 <= i < |port| ==> port[i] != ':' && port[i] != '[' && port[i] != ']'
  {
    hide Value;
    assert forall i :: 0 < i < |port| ==> port[i] == port[1..][i - 1];
  }

  lemma {:induction false} LineIsSplit(host: string, port: string)
    requires (forall c :: c in host ==> HostTextChar(c)) && host != "" && IsPort(port)
    ensures SplitHostPort(host + ":" + port) == Some((host, port))
  {
    hide Value, IsPort, FirstIndex, LastIndex;
    var s := host + ":" + port;
    PortChars(port);
    assert forall i :: 0 <= i < |host| ==> host[i] in host;
    assert s[..|host|] == host && s[|host|] == ':' && s[|host| + 1..] == port;
    assert forall i :: 0 <= i < |host| ==> s[i] == host[i];
    assert forall i :: |host| < i < |s| ==> s[i] == port[i - |host| - 1];
    assert s[0] == host[0];
  }

  /** Every rule for a DNS name, written as text, parses back to itself. */
  lemma {:induction false} PrintedRuleParses(r: Rule, isIP: string -> bool)
    requires IsDNSName(r.host) && IsPort(r.port) && (r.suffix ==> !isIP(r.host))
    ensures ParsedRule(RuleText(r), isIP) == Some(r)
  {
    hide IsDNSName, IsPort, SplitHostPort, Normalise, ContainsAny;
    DNSNameChars(r.host);
    var h := HostText(r);
    assert forall c :: c in h ==> HostTextChar(c) by { StarDot(r.host); }
    HostTextIsNormal(h);
    LineIsSplit(h, r.port);
    if r.suffix {
      assert h[2..] == r.host;
    } else {
      assert !HasPrefix(h, "*.");
    }
  }

  lemma {:induction false} StarDot(host: string)
    requires forall c :: c in host ==> IsHostChar(c) || c == '.'
    ensures forall c :: c in "*." + host ==> HostTextChar(c)
  {
  }

  lemma {:induction false} DNSNameChars(s: string)
    requires IsDNSName(s)
    ensures s != "" && s[0] != '*' && s[|s| - 1] != '.' && forall c :: c in s ==> IsHostChar(c) || c == '.'
  {
    hide Split, Size, Join, WireSize;
    DNSNamesMeetLimits(s);
    var labels := Labels(s);
    JoinSplit(s, '.');
    JoinChars(labels, '.');
    assert s != "" by { EmptyNameHasEmptyLabel(s); }
    assert s[0] in s;
    LastDot(s);
    assert labels[|labels| - 1] != "";
  }

  lemma {:induction false} LastDot(s: string)
    ensures s != "" && s[|s| - 1] == '.' ==> Labels(s)[|Labels(s)| - 1] == ""
  {
    hide Split;
    if s != "" && s[|s| - 1] == '.' {
      SplitConcat(s[..|s| - 1], '.', "");
      assert s == s[..|s| - 1] + ['.'] + "";
      assert Split("", '.') == [""] by { NoLabels(); }
    }
  }

  lemma {:induction false} NoLabels()
    ensures Split("", '.') == [""]
  {
  }

  /** Ports are compared as text: a rule reaches the port it names, on any host, exactly if it is
      written the way numbers are printed, and it never reaches another one. */
  lemma {:induction false} PortsCompareAsText(r: Rule)
    requires IsPort(r.port)
    ensures (exists host :: Matches(r, host, Itoa(PortNumber(r.port)))) <==> r.port[0] != '+' && r.port[0] != '0'
    ensures forall host, n: nat :: Matches(r, host, Itoa(n)) ==> n == PortNumber(r.port)
  {
    hide Labels, ProperSuffix, Value;
    var n := PortNumber(r.port);
    if r.port[0] != '+' && r.port[0] != '0' {
      CanonicalDigits(r.port);
      if r.suffix {
        WildcardNeedsWholeLabels(r, "", r.port);
        assert Matches(r, "" + "." + r.host, Itoa(n));
      } else {
        assert Matches(r, r.host, Itoa(n));
      }
    }
    if r.port == Itoa(n) {
      OneDigit(r.port);
    }
  }

  /** So a rule for any name with the port 0443 or +443 is accepted, and lets nothing through to 443. */
  lemma {:induction false} AcceptedButUnreachable(host: string, port: string, isIP: string -> bool)
    requires IsDNSName(host) && port in {"0443", "+443"}
    ensures ParsedRule(host + ":" + port, isIP) == Some(Rule(host, port, false))
    ensures forall other :: !Matches(Rule(host, port, false), other, "443")
  {
    hide IsDNSName, Labels, ParsedRule, ProperSuffix, IsPort, Value;
    OddPorts();
    PrintedRuleParses(Rule(host, port, false), isIP);
    assert RuleText(Rule(host, port, false)) == host + ":" + port;
  }

  lemma {:induction false} OddPorts()
    ensures IsPort("0443") && IsPort("+443") && "0443" != "443" && "+443" != "443"
  {
    assert Value("443") == 443 by {
      assert "443"[..2] == "44" && "44"[..1] == "4" && "4"[..0] == "";
    }
    assert Value("0443") == 443 by {
      assert "0443"[..3] == "044" && "044"[..2] == "04" && "04"[..1] == "0" && "0"[..0] == "";
    }
    assert "+443"[1..] == "443";
  }

  lemma {:induction false} OneDigit(s: string)
    requires AllDigits(s)
    ensures |s| == 1 ==> Value(s) == DigitValue(s[0])
  {
    if |s| == 1 {
      assert s[..0] == "";
    }
  }

  lemma {:induction false} CanonicalDigits(s: string)
    requires s != "" && AllDigits(s) && s[0] != '0'
    ensures Digits(Value(s)) == s
  {
    var head := s[..|s| - 1];
    var d := DigitValue(s[|s| - 1]);
    if head == "" {
      assert Value(head) == 0;
    } else {
      CanonicalDigits(head);
      PositiveValue(head);
      assert Value(s) / 10 == Value(head) && Value(s) % 10 == d;
    }
    assert s == head + [s[|s| - 1]];
  }

  lemma {:induction false} PositiveValue(s: string)
    requires s != "" && AllDigits(s) && s[0] != '0'
    ensures Value(s) > 0
  {
    if |s| > 1 {
      PositiveValue(s[..|s| - 1]);
    } else {
      assert s[..0] == "";
    }
  }
}
