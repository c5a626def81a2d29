/** Go's path package: slash-separated paths as lists of components. */
module Paths {
  import opened Text

  predicate Plain(c: string) { c != "" && c != "." && c != ".." }

  predicate AllPlain(parts: seq<string>) {
    forall i :: 0 <= i < |parts| ==> Plain(parts[i])
  }

  /** The component stack path.Clean builds from left to right. */
  function Resolve(parts: seq<string>, rooted: bool): (stack: seq<string>)
    ensures forall i :: 0 <= i < |stack| ==> stack[i] != "" && stack[i] != "." && stack[i] in parts
  {
    if parts == [] then []
    else
      var stack := Resolve(parts[..|parts| - 1], rooted);
      var c := parts[|parts| - 1];
      if c == "" || c == "." then stack
      else if c != ".." then stack + [c]
      else if stack != [] && stack[|stack| - 1] != ".." then stack[..|stack| - 1]
      else if rooted then stack
      else stack + [c]
  }

  /** path.Clean */
  function Clean(s: string): string {
    var rooted := HasPrefix(s, "/");
    var stack := Resolve(Split(s, '/'), rooted);
    if rooted then "/" + Join(stack, '/')
    else if stack == [] then "." else Join(stack, '/')
  }

  /** path.Join of two or more elements, the first of which may be empty. */
  function JoinPath(first: string, rest: seq<string>): string {
    Clean(if first == "" then Join(rest, '/') else first + "/" + Join(rest, '/'))
  }

  lemma {:induction false} ResolvePlain(parts: seq<string>, rooted: bool)
    requires AllPlain(parts)
    ensures Resolve(parts, rooted) == parts
  {
    if parts != [] {
      ResolvePlain(parts[..|parts| - 1], rooted);
      assert parts == parts[..|parts| - 1] + [parts[|parts| - 1]];
    }
  }

  /** A clean relative path other than "." has no empty and no "." component. */
  lemma {:induction false} CleanComponents(s: string)
    requires Clean(s) == s && !HasPrefix(s, "/") && s != "."
    ensures forall i :: 0 <= i < |Split(s, '/')| ==> Split(s, '/')[i] != "" && Split(s, '/')[i] != "."
  {
    var stack := Resolve(Split(s, '/'), false);
    assert forall i :: 0 <= i < |stack| ==> '/' !in stack[i];
    SplitJoin(stack, '/');
  }

  /** Every ".." in a stack follows another one. */
  predicate ClimbsFirst(stack: seq<string>) {
    forall i :: 0 < i < |stack| && stack[i] == ".." ==> stack[i - 1] == ".."
  }

  lemma {:induction false} NextComponent(before: seq<string>, c: string)
    requires ClimbsFirst(before)
    ensures c != ".." || before == [] || before[|before| - 1] == ".." ==> ClimbsFirst(before + [c])
    ensures before != [] ==> ClimbsFirst(before[..|before| - 1])
  {
  }

  lemma {:induction false} ClimbsComeFirst(parts: seq<string>)
    ensures ClimbsFirst(Resolve(parts, false))
  {
    hide ClimbsFirst;
    if parts == [] {
      NoClimbs();
    } else {
      ClimbsComeFirst(parts[..|parts| - 1]);
      NextComponent(Resolve(parts[..|parts| - 1], false), parts[|parts| - 1]);
    }
  }

  lemma {:induction false} NoClimbs()
    ensures ClimbsFirst([])
  {
  }

  lemma {:induction false} FirstClimb(stack: seq<string>, i: nat)
    requires i < |stack| && stack[i] == ".." && ClimbsFirst(stack)
    ensures stack[0] == ".."
  {
    if i > 0 {
      FirstClimb(stack, i - 1);
    }
  }

  lemma {:induction false} CleanIsResolved(p: string)
    requires Clean(p) == p && !HasPrefix(p, "/") && p != "."
    ensures Resolve(Split(p, '/'), false) == Split(p, '/')
  {
    hide Split;
    var stack := Resolve(Split(p, '/'), false);
    assert forall i :: 0 <= i < |stack| ==> '/' !in stack[i];
    SplitJoin(stack, '/');
  }

  lemma {:induction false} StartsWithClimb(s: string)
    ensures HasPrefix(s, "../") || s == ".." <==> Split(s, '/')[0] == ".."
  {
    hide Split;
    var parts := Split(s, '/');
    JoinSplit(s, '/');
    SplitPlain("..", '/');
    if HasPrefix(s, "../") {
      SplitConcat("..", '/', s[3..]);
      assert s == ".." + ['/'] + s[3..];
    }
    if parts[0] == ".." && |parts| > 1 {
      assert s == ".." + ['/'] + Join(parts[1..], '/');
    }
  }

  lemma {:induction false} InnerClimb(s: string)
    requires Contains(s, "/../")
    ensures exists i :: 0 <= i < |Split(s, '/')| && Split(s, '/')[i] == ".."
  {
    hide Split;
    var k :| 0 <= k <= |s| && "/../" <= s[k..];
    var before, rest := s[..k], s[k + 4..];
    assert s[k..] == "/../" + s[k..][4..];
    assert s == before + ['/'] + (".." + ['/'] + rest);
    SplitConcat(before, '/', ".." + ['/'] + rest);
    SplitConcat("..", '/', rest);
    SplitPlain("..", '/');
    assert Split(s, '/') == Split(before, '/') + ([".."] + Split(rest, '/'));
    assert Split(s, '/')[|Split(before, '/')|] == "..";
  }

  /** Joining proper components gives a path that path.Clean leaves alone. */
  lemma {:induction false} CleanOfPlain(parts: seq<string>)
    requires parts != [] && AllPlain(parts)
    requires forall i :: 0 <= i < |parts| ==> '/' !in parts[i]
    ensures Clean(Join(parts, '/')) == Join(parts, '/')
    ensures !HasPrefix(Join(parts, '/'), "/")
    ensures Split(Join(parts, '/'), '/') == parts
  {
    SplitJoin(parts, '/');
    assert parts[0] <= Join(parts, '/') && parts[0] != "";
    assert parts[0][0] in parts[0];
    assert Join(parts, '/')[0] == parts[0][0];
    ResolvePlain(parts, false);
  }

  /** A component that occurs in a split path occurs in the path. */
  lemma {:induction false} ComponentOccurs(s: string, i: nat)
    requires i < |Split(s, '/')|
    ensures Contains(s, Split(s, '/')[i])
    decreases |s|
  {
    if s == "" {
      assert "" <= s[0..];
    } else {
      var rest := Split(s[1..], '/');
      if s[0] == '/' {
        if i == 0 {
          assert "" <= s[0..];
        } else {
          ComponentOccurs(s[1..], i - 1);
          var k :| 0 <= k <= |s| - 1 && rest[i - 1] <= s[1..][k..];
          assert s[1..][k..] == s[k + 1..];
        }
      } else if i == 0 {
        FirstComponentIsPrefix(s);
        assert Split(s, '/')[0] <= s[0..];
      } else {
        ComponentOccurs(s[1..], i);
        var k :| 0 <= k <= |s| - 1 && rest[i] <= s[1..][k..];
        assert s[1..][k..] == s[k + 1..];
      }
    }
  }

  lemma {:induction false} FirstComponentIsPrefix(s: string)
    ensures Split(s, '/')[0] <= s
  {
    JoinSplit(s, '/');
    var parts := Split(s, '/');
    assert parts[0] <= Join(parts, '/');
  }
}
