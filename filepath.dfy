/**
 * `filepath.Clean` with Unix rules (separator `/`): the shortest path
 * naming the same file by lexical processing alone.  Repeated separators
 * collapse, `.` elements go, each `..` removes the element before it (at the
 * root it is dropped, in a relative path with nothing left to remove it
 * stays), and an empty result becomes `.`.
 */
module FilePath {

  const Separator := '/'

  /** The index of the first separator in `s`, or -1. */
  function FirstSeparator(s: string): (i: int)
    ensures -1 <= i < |s|
    ensures i == -1 <==> Separator !in s
    ensures i >= 0 ==> s[i] == Separator && Separator !in s[..i]
  {
    if s == [] then -1
    else if s[0] == Separator then 0
    else
      var i := FirstSeparator(s[1..]);
      if i == -1 then -1
      else
        assert s[..i + 1] == [s[0]] + s[1..][..i];
        i + 1
  }

  /** The text between separators, in order; `""` where two separators meet. */
  function Split(s: string): (parts: seq<string>)
    ensures |parts| >= 1
    ensures forall k :: 0 <= k < |parts| ==> Separator !in parts[k]
    decreases |s|
  {
    var i := FirstSeparator(s);
    if i == -1 then [s] else [s[..i]] + Split(s[i + 1..])
  }

  /** Joined back with single separators, the parts give exactly the path. */
  lemma {:induction false} SplitJoin(s: string)
    ensures Join(Split(s)) == s
    decreases |s|
  {
    var i := FirstSeparator(s);
    if i != -1 {
      var head, tail := s[..i], s[i + 1..];
      var rest := Split(tail);
      SplitJoin(tail);
      JoinCons(head, rest);
      CutAround(s, i);
    }
  }

  /** A string is what comes before position `i`, the character there, and what follows. */
  lemma CutAround(s: string, i: nat)
    requires i < |s|
    ensures s == s[..i] + [s[i]] + s[i + 1..]
  {
  }

  /** Joining a first part onto at least one more puts one separator between. */
  lemma JoinCons(head: string, rest: seq<string>)
    requires rest != []
    ensures Join([head] + rest) == head + [Separator] + Join(rest)
  {
    assert ([head] + rest)[1..] == rest;
  }

  /** An element a cleaned path may hold: non-empty, without separators, not `.`. */
  predicate Element(e: string) {
    e != "" && e != "." && Separator !in e
  }

  predicate Elements(stack: seq<string>) {
    forall k :: 0 <= k < |stack| ==> Element(stack[k])
  }

  /** One element of the input applied to the elements kept so far. */
  function Resolve(stack: seq<string>, part: string, rooted: bool): seq<string> {
    if part == "" || part == "." then stack
    else if part == ".." then
      if |stack| > 0 && stack[|stack| - 1] != ".." then stack[..|stack| - 1]
      else if rooted then stack
      else stack + [".."]
    else stack + [part]
  }

  /** All the elements applied in order. */
  function ResolveAll(stack: seq<string>, parts: seq<string>, rooted: bool): seq<string>
    decreases |parts|
  {
    if parts == [] then stack else ResolveAll(Resolve(stack, parts[0], rooted), parts[1..], rooted)
  }

  /** The elements joined with single separators. */
  function Join(stack: seq<string>): string
    decreases |stack|
  {
    if stack == [] then ""
    else if |stack| == 1 then stack[0]
    else stack[0] + [Separator] + Join(stack[1..])
  }

  /** `filepath.Clean`. */
  function Clean(path: string): string {
    if path == "" then "."
    else
      var body := Join(CleanElements(path));
      if path[0] == Separator then [Separator] + body
      else if body == "" then "."
      else body
  }

  /** Only elements are ever kept, and a rooted path never keeps `..`. */
  lemma {:induction false} ResolveAllElements(stack: seq<string>, parts: seq<string>, rooted: bool)
    requires Elements(stack)
    requires forall k :: 0 <= k < |parts| ==> Separator !in parts[k]
    requires rooted ==> ".." !in stack
    ensures Elements(ResolveAll(stack, parts, rooted))
    ensures rooted ==> ".." !in ResolveAll(stack, parts, rooted)
    decreases |parts|
  {
    if parts != [] {
      var next := Resolve(stack, parts[0], rooted);
      assert Elements(next) && (rooted ==> ".." !in next) by {
        if parts[0] == ".." && |stack| > 0 && stack[|stack| - 1] != ".." {
          assert forall k :: 0 <= k < |next| ==> next[k] == stack[k];
        }
      }
      ResolveAllElements(next, parts[1..], rooted);
    }
  }

  /**
   * Joined elements: empty exactly when there are none, and otherwise they
   * neither start nor end with a separator.
   */
  lemma {:induction false} JoinEnds(stack: seq<string>)
    requires Elements(stack)
    ensures (Join(stack) == "") <==> (stack == [])
    ensures stack != [] ==> Join(stack)[0] != Separator && Join(stack)[|Join(stack)| - 1] != Separator
    decreases |stack|
  {
    if |stack| > 1 {
      assert Element(stack[0]);
      JoinEnds(stack[1..]);
      var j := Join(stack);
      var tail := Join(stack[1..]);
      assert j == stack[0] + [Separator] + tail;
      assert j[0] == stack[0][0];
      assert j[|j| - 1] == tail[|tail| - 1];
    } else if |stack| == 1 {
      assert Element(stack[0]);
      assert stack[0][0] in stack[0];
      assert stack[0][|stack[0]| - 1] in stack[0];
    }
  }

  /** The elements a path cleans to. */
  function CleanElements(path: string): seq<string>
    requires path != ""
  {
    ResolveAll([], Split(path), path[0] == Separator)
  }

  lemma CleanElementsProper(path: string)
    requires path != ""
    ensures Elements(CleanElements(path))
  {
    ResolveAllElements([], Split(path), path[0] == Separator);
  }

  /**
   * A cleaned path is never empty; it starts with a separator exactly when
   * the path did; and it ends with a separator only when it is the root `/`.
   */
  lemma CleanShape(path: string)
    ensures Clean(path) != ""
    ensures Clean(path)[0] == Separator <==> (path != "" && path[0] == Separator)
    ensures Clean(path)[|Clean(path)| - 1] == Separator <==> Clean(path) == [Separator]
  {
    if path != "" {
      CleanElementsProper(path);
      var elems := CleanElements(path);
      JoinEnds(elems);
      var body := Join(elems);
      if path[0] == Separator {
        assert Clean(path) == [Separator] + body;
        if body != "" {
          assert Clean(path)[|Clean(path)| - 1] == body[|body| - 1];
        }
      }
    }
  }
}
