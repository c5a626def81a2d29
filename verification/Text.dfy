/** The part of Go's string library the modelled code relies on. A `string` here is
    the sequence of runes of a Go string; `Utf8.Size` gives its length in bytes. */
module Text {

  datatype Option<+T> = None | Some(value: T)

  // ------------------------------------------------------------------ spaces

  /** The Unicode White_Space characters, which strings.TrimSpace removes. */
  predicate IsSpace(c: char) {
    || ('\t' <= c <= '\r') || c == ' '
    || c == '\U{85}' || c == '\U{A0}' || c == '\U{1680}'
    || ('\U{2000}' <= c <= '\U{200A}') || c == '\U{2028}' || c == '\U{2029}'
    || c == '\U{202F}' || c == '\U{205F}' || c == '\U{3000}'
  }

  predicate AllSpaces(s: string) {
    forall i :: 0 <= i < |s| ==> IsSpace(s[i])
  }

  function TrimLeft(s: string): string {
    if s != [] && IsSpace(s[0]) then TrimLeft(s[1..]) else s
  }

  function TrimRight(s: string): string {
    if s != [] && IsSpace(s[|s| - 1]) then TrimRight(s[..|s| - 1]) else s
  }

  /** strings.TrimSpace */
  function TrimSpace(s: string): string {
    TrimRight(TrimLeft(s))
  }

  lemma {:induction false} TrimLeftCuts(s: string)
    ensures var r := TrimLeft(s);
            && |r| <= |s| && r == s[|s| - |r|..] && AllSpaces(s[..|s| - |r|])
            && (r != [] ==> !IsSpace(r[0]))
  {
    hide IsSpace;
    if s != [] && IsSpace(s[0]) {
      TrimLeftCuts(s[1..]);
      var n := |s| - |TrimLeft(s)|;
      assert s[n..] == s[1..][n - 1..] && s[..n] == [s[0]] + s[1..][..n - 1];
    } else {
      assert s[0..] == s && s[..0] == "";
    }
  }

  lemma {:induction false} TrimRightCuts(s: string)
    ensures var r := TrimRight(s);
            && |r| <= |s| && r == s[..|r|] && AllSpaces(s[|r|..])
            && (r != [] ==> !IsSpace(r[|r| - 1]))
  {
    hide IsSpace;
    if s != [] && IsSpace(s[|s| - 1]) {
      var front := s[..|s| - 1];
      TrimRightCuts(front);
      var n := |TrimRight(s)|;
      assert s[..n] == front[..n] && s[n..] == front[n..] + [s[|s| - 1]];
    } else {
      assert s[..|s|] == s && s[|s|..] == "";
    }
  }

  /** What is left of a text after trimming: `r`, from position `i`. */
  predicate Cut(s: string, r: string, i: nat) {
    && i + |r| <= |s| && s[i..i + |r|] == r && AllSpaces(s[..i]) && AllSpaces(s[i + |r|..])
    && (r != [] ==> !IsSpace(r[0]) && !IsSpace(r[|r| - 1]))
  }

  lemma {:induction false} TrimSpaceIsCut(s: string)
    ensures exists i :: Cut(s, TrimSpace(s), i)
  {
    hide IsSpace, TrimLeft, TrimRight;
    TrimLeftCuts(s);
    var l := TrimLeft(s);
    TrimRightCuts(l);
    var r, i := TrimRight(l), |s| - |l|;
    assert l == s[i..] && r == l[..|r|];
    assert s[i..i + |r|] == s[i..][..|r|] && s[i + |r|..] == s[i..][|r|..];
    if r != [] {
      assert r[0] == l[0] && l != [];
    }
    assert r == TrimSpace(s) && Cut(s, TrimSpace(s), i);
  }

  lemma {:induction false} CutFacts(s: string, r: string, i: nat)
    requires Cut(s, r, i)
    ensures |r| <= |s| && (|r| == |s| ==> r == s) && (forall c :: c in r ==> c in s) && (r == "" <==> AllSpaces(s))
  {
    hide IsSpace;
    assert forall k :: 0 <= k < |r| ==> r[k] == s[i + k];
    if r == "" {
      assert s == s[..i] + s[i..];
    } else {
      assert s[i] == r[0];
    }
  }

  /** Trimming cuts a run of spaces from each end and leaves none at either. */
  lemma {:induction false} TrimSpaceCuts(s: string)
    ensures var r := TrimSpace(s);
            && (r != [] ==> !IsSpace(r[0]) && !IsSpace(r[|r| - 1]))
            && (|r| <= |s| && (|r| == |s| ==> r == s))
            && (forall c :: c in r ==> c in s)
            && (r == "" <==> AllSpaces(s))
  {
    hide TrimSpace, IsSpace;
    TrimSpaceIsCut(s);
    var i :| Cut(s, TrimSpace(s), i);
    CutFacts(s, TrimSpace(s), i);
  }

  lemma {:induction false} TrimLeftFinds(before: string, text: string)
    requires AllSpaces(before) && (text != "" ==> !IsSpace(text[0]))
    ensures TrimLeft(before + text) == text
  {
    if before == "" {
      assert before + text == text;
    } else {
      assert (before + text)[0] == before[0] && (before + text)[1..] == before[1..] + text;
      TrimLeftFinds(before[1..], text);
    }
  }

  lemma {:induction false} TrimRightFinds(text: string, after: string)
    requires AllSpaces(after) && (text != "" ==> !IsSpace(text[|text| - 1]))
    ensures TrimRight(text + after) == text
  {
    if after == "" {
      assert text + after == text;
    } else {
      var s := text + after;
      assert s[|s| - 1] == after[|after| - 1] && s[..|s| - 1] == text + after[..|after| - 1];
      TrimRightFinds(text, after[..|after| - 1]);
    }
  }

  /** Spaces around a text that has none at its ends are what trimming removes. */
  lemma {:induction false} TrimSpaceFinds(before: string, text: string, after: string)
    requires AllSpaces(before) && AllSpaces(after)
    requires text != "" ==> !IsSpace(text[0]) && !IsSpace(text[|text| - 1])
    ensures TrimSpace(before + text + after) == text
  {
    hide IsSpace, TrimLeft, TrimRight;
    if text == "" {
      assert before + text + after == (before + after) + text && text + "" == text;
      TrimLeftFinds(before + after, text);
      TrimRightFinds(text, "");
    } else {
      assert before + text + after == before + (text + after);
      TrimLeftFinds(before, text + after);
      TrimRightFinds(text, after);
    }
  }

  // ------------------------------------------------------- prefixes, suffixes

  predicate HasPrefix(s: string, p: string) { p <= s }

  predicate HasSuffix(s: string, p: string) {
    |p| <= |s| && s[|s| - |p|..] == p
  }

  /** strings.Contains */
  predicate Contains(s: string, t: string) {
    exists i :: 0 <= i <= |s| && t <= s[i..]
  }

  lemma {:induction false} ContainedChars(s: string, t: string)
    ensures Contains(s, t) ==> forall c :: c in t ==> c in s
  {
    if Contains(s, t) {
      var i :| 0 <= i <= |s| && t <= s[i..];
      forall c | c in t ensures c in s {
        var k :| 0 <= k < |t| && t[k] == c;
        assert s[i..][k] == c;
      }
    }
  }

  /** strings.ContainsAny */
  predicate ContainsAny(s: string, set_: string) {
    exists i :: 0 <= i < |s| && s[i] in set_
  }

  function TrimSuffix(s: string, p: string): string {
    if HasSuffix(s, p) then s[..|s| - |p|] else s
  }

  function TrimPrefix(s: string, p: string): string {
    if HasPrefix(s, p) then s[|p|..] else s
  }

  // -------------------------------------------------------------------- case

  function LowerChar(c: char): char {
    if 'A' <= c <= 'Z' then c - 'A' + 'a' else c
  }

  function UpperChar(c: char): char {
    if 'a' <= c <= 'z' then c - 'a' + 'A' else c
  }

  function ToLower(s: string): (r: string)
    ensures |r| == |s|
  {
    seq(|s|, i requires 0 <= i < |s| => LowerChar(s[i]))
  }

  function ToUpper(s: string): (r: string)
    ensures |r| == |s|
  {
    seq(|s|, i requires 0 <= i < |s| => UpperChar(s[i]))
  }

  /** strings.EqualFold */
  predicate EqualFold(a: string, b: string) { ToLower(a) == ToLower(b) }

  predicate IsLetter(c: char) { 'a' <= c <= 'z' || 'A' <= c <= 'Z' }

  /** The same character, or the two cases of one letter, which lie 32 apart. */
  predicate SameLetter(c: char, d: char) {
    c == d || (IsLetter(c) && IsLetter(d) && (c as int - d as int == 32 || d as int - c as int == 32))
  }

  predicate SameFolded(a: string, b: string) {
    |a| == |b| && forall i :: 0 <= i < |a| ==> SameLetter(a[i], b[i])
  }

  lemma {:induction false} SameLetterFolds(c: char, d: char)
    ensures LowerChar(c) == LowerChar(d) <==> SameLetter(c, d)
    ensures UpperChar(c) == UpperChar(d) <==> SameLetter(c, d)
  {
  }

  /** Both case mappings identify exactly the texts that differ in the case of letters alone. */
  lemma {:induction false} CaseMapsIdentify(a: string, b: string)
    ensures ToLower(a) == ToLower(b) <==> SameFolded(a, b)
    ensures ToUpper(a) == ToUpper(b) <==> SameFolded(a, b)
  {
    hide SameLetter, LowerChar, UpperChar;
    assert |ToLower(a)| == |a| && |ToLower(b)| == |b| && |ToUpper(a)| == |a| && |ToUpper(b)| == |b|;
    forall i | 0 <= i < |a| && |a| == |b|
      ensures ToLower(a)[i] == ToLower(b)[i] <==> SameLetter(a[i], b[i])
      ensures ToUpper(a)[i] == ToUpper(b)[i] <==> SameLetter(a[i], b[i])
    {
      SameLetterFolds(a[i], b[i]);
    }
  }

  // ----------------------------------------------------------- split and join

  /** strings.Split on a one-character separator. */
  function Split(s: string, sep: char): (parts: seq<string>)
    ensures |parts| >= 1
    ensures forall i :: 0 <= i < |parts| ==> sep !in parts[i]
  {
    if s == "" then [""]
    else
      var rest := Split(s[1..], sep);
      if s[0] == sep then [""] + rest
      else [[s[0]] + rest[0]] + rest[1..]
  }

  /** strings.Join */
  function Join(parts: seq<string>, sep: char): string {
    if |parts| == 0 then ""
    else if |parts| == 1 then parts[0]
    else parts[0] + [sep] + Join(parts[1..], sep)
  }

  /** `x` put in front of the first part. */
  function Prepend(x: char, parts: seq<string>): seq<string>
    requires parts != []
  {
    [[x] + parts[0]] + parts[1..]
  }

  lemma {:induction false} SplitStep(s: string, sep: char)
    requires s != ""
    ensures Split(s, sep) == if s[0] == sep then [""] + Split(s[1..], sep) else Prepend(s[0], Split(s[1..], sep))
  {
  }

  lemma {:induction false} PrependConcat(x: char, a: seq<string>, b: seq<string>)
    requires a != []
    ensures Prepend(x, a + b) == Prepend(x, a) + b
  {
    assert (a + b)[0] == a[0] && (a + b)[1..] == a[1..] + b;
  }

  lemma {:induction false} SplitEmpty(sep: char)
    ensures Split("", sep) == [""]
  {
  }

  lemma {:induction false} JoinSplit(s: string, sep: char)
    ensures Join(Split(s, sep), sep) == s
  {
    hide Split;
    if s == "" {
      SplitEmpty(sep);
    } else {
      SplitStep(s, sep);
      var rest := Split(s[1..], sep);
      JoinSplit(s[1..], sep);
      if s[0] == sep {
        assert ([""] + rest)[1..] == rest;
      } else {
        JoinPrepend(s[0], rest, sep);
      }
    }
  }

  lemma {:induction false} JoinPrepend(x: char, parts: seq<string>, sep: char)
    requires parts != []
    ensures Join(Prepend(x, parts), sep) == [x] + Join(parts, sep)
  {
    assert Prepend(x, parts)[1..] == parts[1..];
    if |parts| > 1 {
      assert ([x] + parts[0]) + [sep] + Join(parts[1..], sep) == [x] + (parts[0] + [sep] + Join(parts[1..], sep));
    }
  }

  lemma {:induction false} SplitPlain(s: string, sep: char)
    requires sep !in s
    ensures Split(s, sep) == [s]
  {
    if s != "" {
      assert s[0] in s;
      assert forall c :: c in s[1..] ==> c in s;
      SplitPlain(s[1..], sep);
      assert [s[0]] + s[1..] == s;
    }
  }

  lemma {:induction false} SplitConcat(a: string, sep: char, b: string)
    ensures Split(a + [sep] + b, sep) == Split(a, sep) + Split(b, sep)
  {
    hide Split, Prepend;
    var s := a + [sep] + b;
    SplitStep(s, sep);
    if a == "" {
      SplitEmpty(sep);
      assert s[0] == sep && s[1..] == b;
    } else {
      SplitStep(a, sep);
      assert s[0] == a[0] && s[1..] == a[1..] + [sep] + b;
      SplitConcat(a[1..], sep, b);
      var ra, rb := Split(a[1..], sep), Split(b, sep);
      if a[0] == sep {
        assert [""] + (ra + rb) == ([""] + ra) + rb;
      } else {
        PrependConcat(a[0], ra, rb);
      }
    }
  }

  lemma {:induction false} SplitJoin(parts: seq<string>, sep: char)
    requires |parts| >= 1
    requires forall i :: 0 <= i < |parts| ==> sep !in parts[i]
    ensures Split(Join(parts, sep), sep) == parts
  {
    SplitPlain(parts[0], sep);
    if |parts| > 1 {
      SplitJoin(parts[1..], sep);
      SplitConcat(parts[0], sep, Join(parts[1..], sep));
      assert [parts[0]] + parts[1..] == parts;
    }
  }

  lemma {:induction false} JoinConcat(a: seq<string>, b: seq<string>, sep: char)
    requires a != [] && b != []
    ensures Join(a + b, sep) == Join(a, sep) + [sep] + Join(b, sep)
  {
    if |a| > 1 {
      assert (a + b)[0] == a[0] && (a + b)[1..] == a[1..] + b;
      JoinConcat(a[1..], b, sep);
    } else {
      assert (a + b)[0] == a[0] && (a + b)[1..] == b;
    }
  }

  // ----------------------------------------------------------- decimal digits

  predicate IsDigit(c: char) { '0' <= c <= '9' }

  predicate AllDigits(s: string) {
    forall i :: 0 <= i < |s| ==> IsDigit(s[i])
  }

  function DigitValue(c: char): nat
    requires IsDigit(c)
  {
    c as int - '0' as int
  }

  function DigitChar(d: nat): (c: char)
    requires d < 10
    ensures IsDigit(c) && DigitValue(c) == d
  {
    '0' + d as char
  }

  /** The number a digit string denotes. */
  function Value(s: string): nat
    requires AllDigits(s)
  {
    if s == "" then 0 else 10 * Value(s[..|s| - 1]) + DigitValue(s[|s| - 1])
  }

  /** strconv.Itoa of a natural number. */
  function Digits(n: nat): (s: string)
    ensures s != "" && AllDigits(s) && Value(s) == n
    ensures |s| > 1 ==> s[0] != '0'
    decreases n
  {
    if n < 10 then [DigitChar(n)]
    else
      var head := Digits(n / 10);
      var s := head + [DigitChar(n % 10)];
      assert s[..|s| - 1] == head;
      s
  }

  /** `n` in exactly `width` digits, when it has no more than that. */
  function Padded(n: nat, width: nat): (s: string)
    ensures |s| == width && AllDigits(s)
  {
    if width == 0 then "" else Padded(n / 10, width - 1) + [DigitChar(n % 10)]
  }

  /** fmt's %d. */
  function Itoa(n: int): string {
    if n >= 0 then Digits(n) else "-" + Digits(-n)
  }

  lemma {:induction false} ItoaInjective(m: int, n: int)
    requires Itoa(m) == Itoa(n)
    ensures m == n
  {
    assert m < 0 <==> Itoa(m)[0] == '-';
    assert n < 0 <==> Itoa(n)[0] == '-';
    if m < 0 {
      assert Digits(-m) == Itoa(m)[1..] == Itoa(n)[1..] == Digits(-n);
    }
  }

  lemma {:induction false} ItoaShape(n: int)
    ensures Itoa(n) != ""
    ensures forall c :: c in Itoa(n) ==> IsDigit(c) || c == '-'
  {
  }

  /** Two texts with the same last separator split the same way. */
  lemma {:induction false} LastSeparatorUnique(a: string, x: string, b: string, y: string, sep: char)
    requires sep !in x && sep !in y
    requires a + [sep] + x == b + [sep] + y
    ensures a == b && x == y
  {
    var s := a + [sep] + x;
    assert s[|a|] == sep && s[|b|] == sep;
    assert forall i :: |a| < i < |s| ==> s[i] != sep by {
      assert forall i :: |a| < i < |s| ==> s[i] == x[i - |a| - 1];
    }
    assert forall i :: |b| < i < |s| ==> s[i] != sep by {
      assert forall i :: |b| < i < |s| ==> s[i] == y[i - |b| - 1];
    }
    assert |a| == |b|;
    assert a == s[..|a|] && b == s[..|b|];
    assert x == s[|a| + 1..] && y == s[|b| + 1..];
  }

  /** Two texts with the same first separator split the same way. */
  lemma {:induction false} FirstSeparatorUnique(a: string, x: string, b: string, y: string, sep: char)
    requires sep !in a && sep !in b
    requires a + [sep] + x == b + [sep] + y
    ensures a == b && x == y
  {
    var s := a + [sep] + x;
    assert s[|a|] == sep && s[|b|] == sep;
    assert forall i :: 0 <= i < |a| ==> s[i] == a[i];
    assert forall i :: 0 <= i < |b| ==> s[i] == b[i];
    assert |a| == |b|;
    assert a == s[..|a|] && b == s[..|b|];
    assert x == s[|a| + 1..] && y == s[|b| + 1..];
  }
}
