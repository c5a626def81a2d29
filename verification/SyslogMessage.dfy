/** The audit exporter's RFC 5424 printer, and an RFC 5424 (section 6) parser to read it back. */
module SyslogMessage {
  import opened Text
  import opened Utf8

  // ------------------------------------------------------- escaped parameters

  const PARAM_BYTES := 256

  predicate Special(c: char) { c == '\\' || c == '"' || c == ']' }

  /** Control characters are replaced before a value is written. */
  function CleanChar(c: char): char {
    if (c as int) < 32 || (c as int) == 127 then '_' else c
  }

  function CleanText(s: string): (r: string)
    ensures |r| == |s|
  {
    seq(|s|, i requires 0 <= i < |s| => CleanChar(s[i]))
  }

  function EscapeChar(c: char): string {
    if Special(c) then ['\\', c] else [CleanChar(c)]
  }

  lemma {:induction false} EscapedSize(c: char)
    ensures 1 <= Size(EscapeChar(c)) <= 4
  {
    assert ['\\', c][1..] == [c] && [c][1..] == "" && [CleanChar(c)][1..] == "";
    assert Size([c]) == CharSize(c);
  }

  /** What escapeSyslogParam writes for `s` once `used` bytes are already out. */
  function EscapeFrom(s: string, used: nat): string {
    if s == "" then ""
    else
      var e := EscapeChar(s[0]);
      if used + Size(e) >= PARAM_BYTES then e else e + EscapeFrom(s[1..], used + Size(e))
  }

  /** How many characters of the value survive the limit. */
  function Kept(s: string, used: nat): (k: nat)
    ensures k <= |s|
    ensures s != "" ==> k > 0
  {
    if s == "" then 0
    else
      var u := used + Size(EscapeChar(s[0]));
      if u >= PARAM_BYTES then 1 else 1 + Kept(s[1..], u)
  }

  function Escape(s: string): string { EscapeFrom(s, 0) }

  function Recovered(s: string): string { CleanText(s[..Kept(s, 0)]) }

  method EscapeSyslogParam(value: string) returns (out: string)
    ensures out == Escape(value)
  {
    hide EscapeFrom, Size;
    out := "";
    assert value[0..] == value && "" + EscapeFrom(value, 0) == EscapeFrom(value, 0);
    assert Size("") == 0 by { EmptySize(); }
    for i := 0 to |value|
      invariant Size(out) < PARAM_BYTES
      invariant out + EscapeFrom(value[i..], Size(out)) == Escape(value)
    {
      EscapeStep(out, value[i..]);
      assert value[i..][1..] == value[i + 1..];
      var c := value[i];
      if c == '\\' || c == '"' || c == ']' {
        out := out + ['\\', c];
      } else if c as int < 32 || c as int == 127 {
        out := out + ['_'];
      } else {
        out := out + [c];
      }
      if Size(out) >= PARAM_BYTES {
        return;
      }
    }
    EscapeEnd(value[|value|..], Size(out));
  }

  lemma {:induction false} EmptySize()
    ensures Size("") == 0
  {
  }

  lemma {:induction false} EscapeEnd(s: string, used: nat)
    requires s == ""
    ensures EscapeFrom(s, used) == ""
  {
  }

  lemma {:induction false} EscapeStep(out: string, s: string)
    requires s != ""
    ensures var more := out + EscapeChar(s[0]);
            out + EscapeFrom(s, Size(out)) == if Size(more) >= PARAM_BYTES then more else more + EscapeFrom(s[1..], Size(more))
  {
    hide EscapeChar;
    var e := EscapeChar(s[0]);
    SizeOfConcat(out, e);
    assert out + (e + EscapeFrom(s[1..], Size(out + e))) == (out + e) + EscapeFrom(s[1..], Size(out + e));
  }

  lemma {:induction false} SizeOfConcat(a: string, b: string)
    ensures Size(a + b) == Size(a) + Size(b)
  {
    if a == "" {
      assert a + b == b;
    } else {
      assert (a + b)[0] == a[0] && (a + b)[1..] == a[1..] + b;
      SizeOfConcat(a[1..], b);
    }
  }

  /** A value is at most 259 bytes, and the kept prefix is the longest that the limit allows:
      characters are dropped only once 256 bytes are written, and never sooner. */
  lemma {:induction false} TruncationIsTight(s: string, used: nat)
    requires used < PARAM_BYTES
    ensures used + Size(EscapeFrom(s, used)) <= 259
    ensures Kept(s, used) < |s| ==> used + Size(EscapeFrom(s, used)) >= PARAM_BYTES
    ensures EscapeFrom(s, used) == EscapeAll(s[..Kept(s, used)])
    ensures forall k :: 0 <= k < Kept(s, used) ==> used + Size(EscapeAll(s[..k])) < PARAM_BYTES
  {
    hide EscapeChar, Size;
    EmptySize();
    if s == "" {
      assert s[..0] == "";
    } else {
      var e := EscapeChar(s[0]);
      EscapedSize(s[0]);
      var u, n := used + Size(e), Kept(s, used);
      EscapeAllStep(s, n);
      if u >= PARAM_BYTES {
        assert s[1..][..0] == "" && e + "" == e;
        assert s[..0] == "";
      } else {
        TruncationIsTight(s[1..], u);
        SizeOfConcat(e, EscapeFrom(s[1..], u));
        forall k | 0 <= k < n ensures used + Size(EscapeAll(s[..k])) < PARAM_BYTES {
          if k == 0 {
            assert s[..0] == "";
          } else {
            EscapeAllStep(s, k);
            SizeOfConcat(e, EscapeAll(s[1..][..k - 1]));
          }
        }
      }
    }
  }

  lemma {:induction false} EscapeAllStep(s: string, k: nat)
    requires 0 < k <= |s|
    ensures EscapeAll(s[..k]) == EscapeChar(s[0]) + EscapeAll(s[1..][..k - 1])
  {
    hide EscapeChar;
    assert s[..k][0] == s[0] && s[..k][1..] == s[1..][..k - 1];
  }

  function EscapeAll(s: string): string {
    if s == "" then "" else EscapeChar(s[0]) + EscapeAll(s[1..])
  }

  predicate Control(c: char) { c as int < 32 || c as int == 127 }

  /** What a reader gets for `value`: each character itself, or an underscore for a control character;
      all of them unless the first ones already fill the limit when escaped. */
  predicate ReadsAs(read: string, value: string) {
    && |read| <= |value|
    && (forall i :: 0 <= i < |read| ==> read[i] == if Control(value[i]) then '_' else value[i])
    && (|read| < |value| ==> Size(EscapeAll(value[..|read|])) >= 256)
  }

  predicate FitsWhole(value: string) {
    Size(EscapeAll(value)) <= 256 && forall i :: 0 <= i < |value| ==> !Control(value[i])
  }

  lemma {:induction false} RecoveredReadsAs(value: string)
    ensures ReadsAs(Recovered(value), value)
    ensures FitsWhole(value) ==> Recovered(value) == value
  {
    hide Size, EscapeChar;
    TruncationIsTight(value, 0);
    if |Recovered(value)| < |value| && FitsWhole(value) {
      LongerIsLarger(value, Kept(value, 0));
    }
  }

  lemma {:induction false} LongerIsLarger(s: string, k: nat)
    requires k < |s|
    ensures Size(EscapeAll(s[..k])) < Size(EscapeAll(s))
  {
    hide EscapeChar, Size;
    assert s[..|s|] == s && s[1..][..|s| - 1] == s[1..];
    EscapeAllStep(s, |s|);
    EscapedSize(s[0]);
    SizeOfConcat(EscapeChar(s[0]), EscapeAll(s[1..]));
    EmptySize();
    if k == 0 {
      assert s[..0] == "";
    } else {
      EscapeAllStep(s, k);
      SizeOfConcat(EscapeChar(s[0]), EscapeAll(s[1..][..k - 1]));
      LongerIsLarger(s[1..], k - 1);
    }
  }

  // ------------------------------------------------------------- header fields

  predicate Printable(c: char) { 33 <= c as int <= 126 }

  /** SD-NAME characters: printable, and none of the structural ones. */
  predicate NameChar(c: char) { Printable(c) && c != '=' && c != ']' && c != '"' }

  function HeaderChar(c: char): char { if NameChar(c) then c else '_' }

  function Header(value: string, maximum: nat): string {
    var t := TrimSpace(value);
    var n := if |t| < maximum then |t| else maximum;
    if t == "" then "-" else seq(n, i requires 0 <= i < n => HeaderChar(t[i]))
  }

  method SanitizeSyslogHeader(value: string, maximum: nat) returns (r: string)
    requires maximum >= 1
    ensures r == Header(value, maximum)
    ensures IsField(r, maximum) && forall c :: c in r ==> NameChar(c)
  {
    hide TrimSpace;
    var t := TrimSpace(value);
    if t == "" {
      return "-";
    }
    r := "";
    for i := 0 to |t|
      invariant |r| == i < maximum
      invariant forall j :: 0 <= j < i ==> r[j] == HeaderChar(t[j])
    {
      var c := t[i];
      if 33 <= c as int <= 126 && c != '=' && c != ']' && c != '"' {
        r := r + [c];
      } else {
        r := r + ['_'];
      }
      if |r| >= maximum {
        break;
      }
    }
    if |r| == 0 {
      return "-";
    }
  }

  /** The host and application names New settles on; `osName` is what os.Hostname returned, if it did. */
  method ResolveHeaders(host: string, app: string, osName: Option<string>) returns (h: string, a: string)
    ensures IsField(h, 255) && IsField(a, 48) && a != "-"
    ensures h == if Header(host, 255) == "-" && osName.Some? then Header(osName.value, 255) else Header(host, 255)
    ensures a == if Header(app, 48) == "-" then "appforge" else Header(app, 48)
  {
    hide Header;
    h := SanitizeSyslogHeader(host, 255);
    if h == "-" && osName.Some? {
      h := SanitizeSyslogHeader(osName.value, 255);
    }
    a := SanitizeSyslogHeader(app, 48);
    if a == "-" {
      a := "appforge";
    }
  }

  predicate IsField(s: string, maximum: nat) {
    1 <= |s| <= maximum && forall i :: 0 <= i < |s| ==> Printable(s[i])
  }

  // -------------------------------------------------------------- the time stamp

  function DropZeros(s: string): string {
    if s != "" && s[|s| - 1] == '0' then DropZeros(s[..|s| - 1]) else s
  }

  /** The fraction RFC3339Nano prints: nine digits without their trailing zeros, or nothing. */
  function Fraction(nanos: nat): string {
    var d := DropZeros(Padded(nanos, 9));
    if d == "" then "" else "." + d
  }

  function Stamp(seconds: string, nanos: nat): string { seconds + Fraction(nanos) + "Z" }

  /** yyyy-mm-ddThh:mm:ss */
  predicate IsSeconds(s: string) {
    && |s| == 19 && s[4] == '-' && s[7] == '-' && s[10] == 'T' && s[13] == ':' && s[16] == ':'
    && forall i :: 0 <= i < 19 && i !in {4, 7, 10, 13, 16} ==> IsDigit(s[i])
  }

  /** TIME-SECFRAC allows one to six digits. */
  predicate IsFraction(f: string) {
    f == "" || (2 <= |f| <= 7 && f[0] == '.' && AllDigits(f[1..]))
  }

  predicate IsTimestamp(t: string) {
    |t| >= 20 && IsSeconds(t[..19]) && t[|t| - 1] == 'Z' && IsFraction(t[19..|t| - 1])
  }

  lemma {:induction false} LastDigitDropped(n: nat, width: nat)
    requires width > 0
    ensures |DropZeros(Padded(n, width))| == if n % 10 == 0 then |DropZeros(Padded(n / 10, width - 1))| else width
  {
    hide Padded;
    PaddedTail(n, width);
  }

  lemma {:induction false} ZerosDropped(n: nat, width: nat)
    requires width >= 3
    ensures |DropZeros(Padded(n, width))| <= width - 3 <==> n % 1000 == 0
    ensures AllDigits(DropZeros(Padded(n, width)))
  {
    hide Padded, DropZeros;
    DropZerosCuts(Padded(n, width));
    LastDigitDropped(n, width);
    if n % 10 == 0 {
      LastDigitDropped(n / 10, width - 1);
      if n / 10 % 10 == 0 {
        LastDigitDropped(n / 10 / 10, width - 2);
        DropZerosCuts(Padded(n / 10 / 10 / 10, width - 3));
      }
    }
    LastThreeDigits(n);
  }

  lemma {:induction false} LastThreeDigits(n: nat)
    ensures n % 1000 == 0 <==> n % 10 == 0 && n / 10 % 10 == 0 && n / 10 / 10 % 10 == 0
  {
    var n1, n2 := n / 10, n / 10 / 10;
    var n3, r := n2 / 10, 100 * (n2 % 10) + 10 * (n1 % 10) + n % 10;
    assert n == 10 * n1 + n % 10 && n1 == 10 * n2 + n1 % 10 && n2 == 10 * n3 + n2 % 10;
    Remainder(n, n3, r);
  }

  lemma {:induction false} Remainder(n: nat, q: nat, r: nat)
    requires n == 1000 * q + r && r < 1000
    ensures n % 1000 == r
  {
  }

  lemma {:induction false} PaddedTail(n: nat, width: nat)
    requires width > 0
    ensures Padded(n, width)[..width - 1] == Padded(n / 10, width - 1)
    ensures Padded(n, width)[width - 1] == '0' <==> n % 10 == 0
  {
  }

  lemma {:induction false} DropZerosCuts(s: string)
    ensures DropZeros(s) <= s
    ensures |DropZeros(s)| == |s| <==> s == "" || s[|s| - 1] != '0'
  {
    if s != "" && s[|s| - 1] == '0' {
      DropZerosCuts(s[..|s| - 1]);
    }
  }

  /** The stamp is an RFC 5424 time exactly when nothing finer than a microsecond is left. */
  lemma {:induction false} StampIsTimestamp(seconds: string, nanos: nat)
    requires IsSeconds(seconds)
    ensures IsTimestamp(Stamp(seconds, nanos)) <==> nanos % 1000 == 0
    ensures IsField(Stamp(seconds, nanos), 30)
  {
    hide DropZeros, Padded;
    ZerosDropped(nanos, 9);
    DropZerosCuts(Padded(nanos, 9));
    var t, f := Stamp(seconds, nanos), Fraction(nanos);
    assert t[..19] == seconds && t[19..|t| - 1] == f;
    if f != "" {
      assert f[1..] == DropZeros(Padded(nanos, 9));
    }
  }

  // --------------------------------------------------------------- the message

  datatype Event = Event(tenantId: int, userId: int, moduleName: string, action: string)

  function ParamText(name: string, escaped: string): string {
    [' '] + (name + (['=', '"'] + (escaped + ['"'])))
  }

  function ParamTexts(ps: seq<(string, string)>): string {
    if ps == [] then "" else ParamText(ps[0].0, ps[0].1) + ParamTexts(ps[1..])
  }

  const SD_ID := "appforge@32473"

  function ElementText(e: Event): string {
    ['['] + (SD_ID + (ParamTexts(WrittenParams(e)) + [']']))
  }

  function WrittenParams(e: Event): seq<(string, string)> {
    [("tenantId", Itoa(e.tenantId)), ("userId", Itoa(e.userId)), ("module", Escape(e.moduleName)), ("action", Escape(e.action))]
  }

  function Field(s: string, rest: string): string { s + ([' '] + rest) }

  /** The text rfc5424Message formats. */
  function MessageText(stamp: string, host: string, app: string, e: Event, payload: string): string {
    Field("<134>1", Field(stamp, Field(host, Field(app, Field("-", Field("AUDIT", Field(ElementText(e), payload)))))))
  }

  function Rfc5424Message(stamp: string, host: string, app: string, e: Event, payload: string, maxBytes: nat): Option<Bytes> {
    var m := Encode(MessageText(stamp, host, app, e, payload));
    if |m| > maxBytes then None else Some(m)
  }

  // ---------------------------------------------------------------- the parser

  datatype Param = Param(name: string, value: string)
  datatype Element = Element(id: string, params: seq<Param>)
  datatype Message = Message(
    pri: nat, version: string, timestamp: string, hostname: string, appName: string, procId: string, msgId: string,
    data: seq<Element>, text: string)

  function UntilSpace(t: string): (f: string)
    ensures |f| <= |t|
  {
    if t == "" || t[0] == ' ' then "" else [t[0]] + UntilSpace(t[1..])
  }

  /** One space-terminated header field of 1 to `maximum` printable characters. */
  function ReadField(t: string, maximum: nat): Option<(string, string)> {
    var f := UntilSpace(t);
    if IsField(f, maximum) && |f| < |t| then Some((f, t[|f| + 1..])) else None
  }

  function LeadingDigits(t: string): (d: string)
    ensures |d| <= |t| && AllDigits(d)
  {
    if t == "" || !IsDigit(t[0]) then "" else [t[0]] + LeadingDigits(t[1..])
  }

  /** PRI and VERSION */
  function ReadPrefix(t: string): Option<(nat, string)> {
    if t == "" || t[0] != '<' then None
    else
      var d := LeadingDigits(t[1..]);
      var rest := t[1 + |d|..];
      if !(1 <= |d| <= 3) || Value(d) > 191 || |rest| < 2 || rest[0] != '>' || |rest| > 4
         || !AllDigits(rest[1..]) || rest[1] == '0' then None
      else Some((Value(d), rest[1..]))
  }

  function NameRun(t: string): (n: string)
    ensures |n| <= |t|
  {
    if t == "" || !NameChar(t[0]) then "" else [t[0]] + NameRun(t[1..])
  }

  /** PARAM-VALUE up to its closing quote, unescaped (section 6.3.3). */
  function ReadValue(t: string): (r: Option<(string, string)>)
    ensures r.Some? ==> |r.value.1| < |t|
  {
    if t == "" || t[0] == ']' then None
    else if t[0] == '"' then Some(("", t[1..]))
    else
      var skip := if t[0] == '\\' && |t| > 1 && Special(t[1]) then 1 else 0;
      var r := ReadValue(t[skip + 1..]);
      if r.None? then None else Some(([t[skip]] + r.value.0, r.value.1))
  }

  function ReadParam(t: string): (r: Option<(Param, string)>)
    ensures r.Some? ==> |r.value.1| < |t|
  {
    var name := NameRun(t);
    var rest := t[|name|..];
    if !(1 <= |name| <= 32) || |rest| < 2 || rest[0] != '=' || rest[1] != '"' then None
    else
      var v := ReadValue(rest[2..]);
      if v.None? then None else Some((Param(name, v.value.0), v.value.1))
  }

  /** The parameters of an element, up to and including its closing bracket. */
  function ReadParams(t: string): (r: Option<(seq<Param>, string)>)
    ensures r.Some? ==> |r.value.1| < |t|
    decreases |t|
  {
    if t == "" then None
    else if t[0] == ']' then Some(([], t[1..]))
    else if t[0] != ' ' then None
    else
      var p := ReadParam(t[1..]);
      if p.None? then None
      else
        var ps := ReadParams(p.value.1);
        if ps.None? then None else Some(([p.value.0] + ps.value.0, ps.value.1))
  }

  /** One or more elements, then the space before the message text. */
  function ReadElements(t: string): Option<(seq<Element>, string)>
    decreases |t|
  {
    if t == "" || t[0] != '[' then None
    else
      var id := NameRun(t[1..]);
      if !(1 <= |id| <= 32) then None
      else
        var ps := ReadParams(t[1..][|id|..]);
        if ps.None? then None
        else
          var e, rest := Element(id, ps.value.0), ps.value.1;
          if rest != "" && rest[0] == ' ' then Some(([e], rest[1..]))
          else
            var es := ReadElements(rest);
            if es.None? then None else Some(([e] + es.value.0, es.value.1))
  }

  function ReadData(t: string): Option<(seq<Element>, string)> {
    if |t| >= 2 && t[0] == '-' && t[1] == ' ' then Some(([], t[2..])) else ReadElements(t)
  }

  function Parse(t: string): Option<Message> {
    var prefix := ReadField(t, 8);
    if prefix.None? || ReadPrefix(prefix.value.0).None? then None
    else
      var stamp := ReadField(prefix.value.1, 32);
      if stamp.None? || (stamp.value.0 != "-" && !IsTimestamp(stamp.value.0)) then None
      else
        var host := ReadField(stamp.value.1, 255);
        if host.None? then None
        else
          var app := ReadField(host.value.1, 48);
          if app.None? then None
          else
            var proc := ReadField(app.value.1, 128);
            if proc.None? then None
            else
              var id := ReadField(proc.value.1, 32);
              if id.None? then None
              else
                var data := ReadData(id.value.1);
                if data.None? then None
                else
                  var p := ReadPrefix(prefix.value.0).value;
                  Some(Message(p.0, p.1, stamp.value.0, host.value.0, app.value.0, proc.value.0, id.value.0, data.value.0, data.value.1))
  }

  // ------------------------------------------------------- printing, then parsing

  lemma {:induction false} FieldIsRead(f: string, rest: string, maximum: nat)
    requires IsField(f, maximum)
    ensures ReadField(Field(f, rest), maximum) == Some((f, rest))
  {
    FieldEnds(f, rest);
    assert Field(f, rest)[|f| + 1..] == rest;
  }

  lemma {:induction false} FieldEnds(f: string, rest: string)
    requires forall i :: 0 <= i < |f| ==> Printable(f[i])
    ensures UntilSpace(Field(f, rest)) == f
  {
    var t := Field(f, rest);
    if f == "" {
      assert t[0] == ' ';
    } else {
      assert t[0] == f[0] && t[1..] == Field(f[1..], rest);
      FieldEnds(f[1..], rest);
      assert f == [f[0]] + f[1..];
    }
  }

  lemma {:induction false} NameIsRead(name: string, rest: string)
    requires forall i :: 0 <= i < |name| ==> NameChar(name[i])
    requires rest != "" && !NameChar(rest[0])
    ensures NameRun(name + rest) == name
  {
    if name == "" {
      assert name + rest == rest;
    } else {
      assert (name + rest)[0] == name[0] && (name + rest)[1..] == name[1..] + rest;
      NameIsRead(name[1..], rest);
      assert name == [name[0]] + name[1..];
    }
  }

  /** Reading an escaped value gives back the cleaned prefix that was kept, and stops at the quote. */
  lemma {:induction false} EscapedValueIsRead(s: string, used: nat, rest: string)
    ensures ReadValue(EscapeFrom(s, used) + (['"'] + rest)) == Some((CleanText(s[..Kept(s, used)]), rest))
  {
    hide EscapeChar, Size, ReadValue, CleanText;
    var tail := ['"'] + rest;
    QuoteIsRead(rest);
    if s == "" {
      assert EscapeFrom(s, used) + tail == tail;
      assert CleanText("") == "";
      assert s[..Kept(s, used)] == "";
    } else {
      var e := EscapeChar(s[0]);
      var u := used + Size(e);
      if u >= PARAM_BYTES {
        CharIsRead(s[0], tail);
        CleanTextStep(s, 1);
        assert CleanText(s[1..][..0]) == "" by { assert s[1..][..0] == ""; }
        assert [CleanChar(s[0])] + "" == [CleanChar(s[0])];
      } else {
        EscapedValueIsRead(s[1..], u, rest);
        CharIsRead(s[0], EscapeFrom(s[1..], u) + tail);
        assert EscapeFrom(s, used) + tail == e + (EscapeFrom(s[1..], u) + tail);
        CleanTextStep(s, Kept(s, used));
      }
    }
  }

  lemma {:induction false} CleanTextStep(s: string, n: nat)
    requires 1 <= n <= |s|
    ensures CleanText(s[..n]) == [CleanChar(s[0])] + CleanText(s[1..][..n - 1])
  {
    hide CleanChar;
  }

  lemma {:induction false} QuoteIsRead(rest: string)
    ensures ReadValue(['"'] + rest) == Some(("", rest))
  {
    assert (['"'] + rest)[1..] == rest;
  }

  lemma {:induction false} CharIsRead(c: char, tail: string)
    requires ReadValue(tail).Some?
    ensures ReadValue(EscapeChar(c) + tail) == Some(([CleanChar(c)] + ReadValue(tail).value.0, ReadValue(tail).value.1))
  {
    var t := EscapeChar(c) + tail;
    if Special(c) {
      assert t[0] == '\\' && t[1] == c && t[2..] == tail;
    } else {
      assert t[0] == CleanChar(c) && t[1..] == tail;
    }
  }

  lemma {:induction false} PlainValueIsRead(v: string, rest: string)
    requires forall i :: 0 <= i < |v| ==> !Special(v[i])
    ensures ReadValue(v + (['"'] + rest)) == Some((v, rest))
  {
    var t := v + (['"'] + rest);
    if v == "" {
      QuoteIsRead(rest);
      assert t == ['"'] + rest;
    } else {
      assert t[0] == v[0] && t[1..] == v[1..] + (['"'] + rest);
      PlainValueIsRead(v[1..], rest);
      assert v == [v[0]] + v[1..];
    }
  }

  predicate IsName(s: string) {
    1 <= |s| <= 32 && forall i :: 0 <= i < |s| ==> NameChar(s[i])
  }

  lemma {:induction false} ParamIsRead(name: string, escaped: string, value: string, tail: string)
    requires IsName(name)
    requires ReadValue(escaped + (['"'] + tail)) == Some((value, tail))
    ensures ReadParam((ParamText(name, escaped) + tail)[1..]) == Some((Param(name, value), tail))
    ensures (ParamText(name, escaped) + tail)[0] == ' '
  {
    hide ReadValue, NameRun, NameChar;
    var rest := ['=', '"'] + (escaped + (['"'] + tail));
    var t := (ParamText(name, escaped) + tail)[1..];
    assert t == name + rest;
    assert !NameChar(rest[0]) by { EqualsIsNoName(); }
    NameIsRead(name, rest);
    assert t[|name|..] == rest;
    assert rest[2..] == escaped + (['"'] + tail);
  }

  lemma {:induction false} EqualsIsNoName()
    ensures !NameChar('=') && !NameChar(' ')
  {
  }

  /** Written parameters that each read back are read back together. */
  lemma {:induction false} ParamsAreRead(written: seq<(string, string)>, values: seq<string>, rest: string)
    requires |values| == |written|
    requires forall i :: 0 <= i < |written| ==> IsName(written[i].0)
    requires forall i, tail: string :: 0 <= i < |written| ==> ReadValue(written[i].1 + (['"'] + tail)) == Some((values[i], tail))
    ensures ReadParams(ParamTexts(written) + ([']'] + rest))
         == Some((seq(|written|, i requires 0 <= i < |written| => Param(written[i].0, values[i])), rest))
  {
    hide ReadValue, ReadParam, ParamText, IsName;
    var t := ParamTexts(written) + ([']'] + rest);
    if written == [] {
      assert t[0] == ']' && t[1..] == rest;
    } else {
      var p := written[0];
      var tail := ParamTexts(written[1..]) + ([']'] + rest);
      assert t == ParamText(p.0, p.1) + tail;
      ParamIsRead(p.0, p.1, values[0], tail);
      ParamsAreRead(written[1..], values[1..], rest);
      var all := seq(|written|, i requires 0 <= i < |written| => Param(written[i].0, values[i]));
      var others := seq(|written| - 1, i requires 0 <= i < |written| - 1 => Param(written[1..][i].0, values[1..][i]));
      assert all == [Param(p.0, values[0])] + others;
    }
  }

  /** The values a collector reads for an event. */
  function ReadBack(e: Event): seq<string> {
    [Itoa(e.tenantId), Itoa(e.userId), Recovered(e.moduleName), Recovered(e.action)]
  }

  function ReadElement(e: Event): Element {
    var values := ReadBack(e);
    Element(SD_ID, [Param("tenantId", values[0]), Param("userId", values[1]), Param("module", values[2]), Param("action", values[3])])
  }

  /** The element names the event: its ids, and its module and action as far as they were kept. */
  predicate Carries(el: Element, e: Event) {
    && el.id == "appforge@32473" && |el.params| == 4
    && el.params[0] == Param("tenantId", Itoa(e.tenantId)) && el.params[1] == Param("userId", Itoa(e.userId))
    && el.params[2].name == "module" && ReadsAs(el.params[2].value, e.moduleName)
    && el.params[3].name == "action" && ReadsAs(el.params[3].value, e.action)
    && (FitsWhole(e.moduleName) ==> el.params[2].value == e.moduleName)
    && (FitsWhole(e.action) ==> el.params[3].value == e.action)
  }

  lemma {:induction false} ReadElementCarries(e: Event)
    ensures Carries(ReadElement(e), e)
  {
    hide Recovered, ReadsAs, FitsWhole, Itoa;
    RecoveredReadsAs(e.moduleName);
    RecoveredReadsAs(e.action);
  }

  lemma {:induction false} ConstantNames()
    ensures IsName("tenantId") && IsName("userId") && IsName("module") && IsName("action") && IsName(SD_ID)
  {
  }

  lemma {:induction false} WrittenValuesAreRead(e: Event, i: nat, tail: string)
    requires i < 4
    ensures ReadValue(WrittenParams(e)[i].1 + (['"'] + tail)) == Some((ReadBack(e)[i], tail))
  {
    hide ReadValue, EscapeFrom, CleanText, Digits;
    ItoaShape(e.tenantId);
    ItoaShape(e.userId);
    if i == 0 {
      PlainValueIsRead(Itoa(e.tenantId), tail);
    } else if i == 1 {
      PlainValueIsRead(Itoa(e.userId), tail);
    } else if i == 2 {
      EscapedValueIsRead(e.moduleName, 0, tail);
    } else {
      EscapedValueIsRead(e.action, 0, tail);
    }
  }

  lemma {:induction false} EventParamsAreRead(e: Event, rest: string)
    ensures ReadParams(ParamTexts(WrittenParams(e)) + ([']'] + rest)) == Some((ReadElement(e).params, rest))
  {
    hide ReadValue, ReadParams, ParamTexts, Recovered, Escape, Itoa, IsName;
    ConstantNames();
    var written, values := WrittenParams(e), ReadBack(e);
    forall i, tail: string | 0 <= i < |written|
      ensures ReadValue(written[i].1 + (['"'] + tail)) == Some((values[i], tail))
    {
      WrittenValuesAreRead(e, i, tail);
    }
    ParamsAreRead(written, values, rest);
    assert seq(|written|, i requires 0 <= i < |written| => Param(written[i].0, values[i])) == ReadElement(e).params;
  }

  lemma {:induction false} ElementIsRead(e: Event, payload: string)
    ensures ReadData(Field(ElementText(e), payload)) == Some(([ReadElement(e)], payload))
  {
    hide ReadParams, NameRun, ParamTexts, WrittenParams, ReadBack, NameChar;
    var params := ParamTexts(WrittenParams(e));
    var t := Field(ElementText(e), payload);
    var rest := params + ([']'] + ([' '] + payload));
    assert t[0] == '[' && t[1..] == SD_ID + rest;
    ConstantNames();
    ParamsStart(e);
    assert !NameChar(rest[0]) by { EqualsIsNoName(); }
    NameIsRead(SD_ID, rest);
    assert t[1..][|SD_ID|..] == rest;
    EventParamsAreRead(e, [' '] + payload);
    assert ([' '] + payload)[1..] == payload;
  }

  lemma {:induction false} ParamsStart(e: Event)
    ensures ParamTexts(WrittenParams(e)) != "" && ParamTexts(WrittenParams(e))[0] == ' '
  {
    hide Escape, Itoa;
  }

  lemma {:induction false} PrefixIsRead()
    ensures IsField("<134>1", 8) && ReadPrefix("<134>1") == Some((134, "1"))
  {
    var t := "134>1";
    assert "<134>1"[1..] == t;
    assert t[3..] == ">1" && LeadingDigits(">1") == "";
    assert LeadingDigits("4>1") == "4" by { assert "4>1"[1..] == ">1"; }
    assert LeadingDigits("34>1") == "34" by { assert "34>1"[1..] == "4>1"; }
    assert LeadingDigits(t) == "134" by { assert t[1..] == "34>1"; }
    assert "<134>1"[4..] == ">1" && ">1"[1..] == "1";
    assert "134"[..2] == "13" && "13"[..1] == "1" && "1"[..0] == "";
    assert Value("1") == 1 && Value("13") == 13 && Value("134") == 134;
  }

  /** An RFC 5424 parser accepts the message exactly when its time is no finer than a microsecond,
      and then recovers every field: both ids, and module and action character by character, whole
      when they hold no control characters and fit the limit. */
  lemma {:induction false} ParsePrint(seconds: string, nanos: nat, host: string, app: string, e: Event, payload: string)
    requires IsSeconds(seconds) && IsField(host, 255) && IsField(app, 48)
    ensures Parse(MessageText(Stamp(seconds, nanos), host, app, e, payload))
         == if nanos % 1000 != 0 then None
            else Some(Message(134, "1", Stamp(seconds, nanos), host, app, "-", "AUDIT", [ReadElement(e)], payload))
    ensures Carries(ReadElement(e), e)
  {
    ReadElementCarries(e);
    hide Carries, ReadField, ReadPrefix, IsTimestamp, ReadData, Field, ElementText, ReadElement, Stamp, IsSeconds;
    var stamp := Stamp(seconds, nanos);
    StampIsTimestamp(seconds, nanos);
    StampIsNotNil(seconds, nanos);
    PrefixIsRead();
    ConstantFields();
    var t6 := Field(ElementText(e), payload);
    var t5 := Field("AUDIT", t6);
    var t4 := Field("-", t5);
    var t3 := Field(app, t4);
    var t2 := Field(host, t3);
    var t1 := Field(stamp, t2);
    FieldIsRead("<134>1", t1, 8);
    FieldIsRead(stamp, t2, 32);
    FieldIsRead(host, t3, 255);
    FieldIsRead(app, t4, 48);
    FieldIsRead("-", t5, 128);
    FieldIsRead("AUDIT", t6, 32);
    ElementIsRead(e, payload);
  }

  lemma {:induction false} StampIsNotNil(seconds: string, nanos: nat)
    requires IsSeconds(seconds)
    ensures Stamp(seconds, nanos) != "-"
  {
    hide Fraction;
  }

  lemma {:induction false} ConstantFields()
    ensures IsField("-", 128) && IsField("AUDIT", 32)
  {
  }

  /** Millisecond event times always parse. */
  lemma {:induction false} EventTimeParses(seconds: string, millis: nat, host: string, app: string, e: Event, payload: string)
    requires IsSeconds(seconds) && IsField(host, 255) && IsField(app, 48)
    ensures Parse(MessageText(Stamp(seconds, millis % 1000 * 1_000_000), host, app, e, payload)).Some?
  {
    hide Parse, MessageText, Stamp, IsSeconds, ReadElement;
    ParsePrint(seconds, millis % 1000 * 1_000_000, host, app, e, payload);
    assert millis % 1000 * 1_000_000 % 1000 == 0;
  }

  /** The text determines the ids and the kept prefixes: no module or action can imitate another event. */
  lemma {:induction false} MessageDeterminesEvent(seconds: string, nanos: nat, host: string, app: string, e: Event, f: Event, p: string, q: string)
    requires IsSeconds(seconds) && IsField(host, 255) && IsField(app, 48)
    requires MessageText(Stamp(seconds, nanos), host, app, e, p) == MessageText(Stamp(seconds, nanos), host, app, f, q)
    ensures e.tenantId == f.tenantId && e.userId == f.userId && p == q
    ensures Recovered(e.moduleName) == Recovered(f.moduleName) && Recovered(e.action) == Recovered(f.action)
    ensures FitsWhole(e.moduleName) && FitsWhole(f.moduleName) ==> e.moduleName == f.moduleName
    ensures FitsWhole(e.action) && FitsWhole(f.action) ==> e.action == f.action
  {
    hide Recovered, FitsWhole, ReadsAs, Itoa, Stamp, IsSeconds, Parse;
    RecoveredReadsAs(e.moduleName);
    RecoveredReadsAs(f.moduleName);
    RecoveredReadsAs(e.action);
    RecoveredReadsAs(f.action);
    SameElements(seconds, nanos, host, app, e, f, p, q);
    ItoaInjective(e.tenantId, f.tenantId);
    ItoaInjective(e.userId, f.userId);
  }

  lemma {:induction false} SameElements(seconds: string, nanos: nat, host: string, app: string, e: Event, f: Event, p: string, q: string)
    requires IsSeconds(seconds) && IsField(host, 255) && IsField(app, 48)
    requires MessageText(Stamp(seconds, nanos), host, app, e, p) == MessageText(Stamp(seconds, nanos), host, app, f, q)
    ensures ReadBack(e) == ReadBack(f) && p == q
  {
    hide Field, ElementText, ReadBack, ReadData, Stamp, IsSeconds;
    var stamp := Stamp(seconds, nanos);
    StampIsTimestamp(seconds, nanos);
    PrefixIsRead();
    ConstantFields();
    var x6, y6 := Field(ElementText(e), p), Field(ElementText(f), q);
    var x5, y5 := Field("AUDIT", x6), Field("AUDIT", y6);
    var x4, y4 := Field("-", x5), Field("-", y5);
    var x3, y3 := Field(app, x4), Field(app, y4);
    var x2, y2 := Field(host, x3), Field(host, y3);
    var x1, y1 := Field(stamp, x2), Field(stamp, y2);
    SameRest("<134>1", x1, y1);
    SameRest(stamp, x2, y2);
    SameRest(host, x3, y3);
    SameRest(app, x4, y4);
    SameRest("-", x5, y5);
    SameRest("AUDIT", x6, y6);
    ElementIsRead(e, p);
    ElementIsRead(f, q);
    SameReadings(e, f);
  }

  lemma {:induction false} SameRest(f: string, x: string, y: string)
    requires Field(f, x) == Field(f, y)
    ensures x == y
  {
    assert x == Field(f, x)[|f| + 1..];
    assert y == Field(f, y)[|f| + 1..];
  }

  lemma {:induction false} SameReadings(e: Event, f: Event)
    requires ReadElement(e) == ReadElement(f)
    ensures ReadBack(e) == ReadBack(f)
  {
    hide Recovered, Itoa;
    assert forall i :: 0 <= i < 4 ==> ReadElement(e).params[i].value == ReadBack(e)[i];
    assert forall i :: 0 <= i < 4 ==> ReadElement(f).params[i].value == ReadBack(f)[i];
  }
}
