/** What the sender refuses, what a route matches and what its handler is given, text by text. */
module RouteMeaning {
  import opened Basics
  import opened SlashPaths
  import opened UriEncoding
  import opened PathParams

  // ---- the sender ------------------------------------------------------------------------------

  /** The white space of the language's `\s`, by code point. */
  predicate White(c: char) {
    var n := c as int;
    || n in {0x09, 0x0A, 0x0B, 0x0C, 0x0D, 0x20, 0xA0, 0x1680, 0x2028, 0x2029, 0x202F, 0x205F, 0x3000, 0xFEFF}
    || 0x2000 <= n <= 0x200A
  }

  /**
   * A path is refused exactly if it does not begin with a slash, or NUL or white space stands in it; without
   * parameters any other is sent as it is.
   */
  lemma InvalidExactly(path: string, params: Option<Params>, query: seq<(string, string)>)
    ensures
      Send(path, params, query) == InvalidPath <==>
        path == "" || path[0] != '/' || exists i :: 0 <= i < |path| && (path[i] == '\0' || White(path[i]))
    ensures params == None && Send(path, params, query) != InvalidPath ==>
      Send(path, params, query) == Url(path + QueryText(query))
  {
    hide QueryText, IsSpace, White, SubstituteBraces, SubstituteColons;
    forall c: char ensures IsSpace(c) <==> White(c) { WhiteIsSpace(c); }
    assert forall i | 0 <= i < |path| :: path[i] in path;
  }

  lemma WhiteIsSpace(c: char)
    ensures IsSpace(c) <==> White(c)
  {
  }

  /** An identifier is a letter or an underscore and then letters, digits and underscores. */
  lemma IdentifierExactly(key: string)
    ensures Identifier(key) <==>
      && key != "" && !('0' <= key[0] <= '9')
      && forall i | 0 <= i < |key| ::
           'A' <= key[i] <= 'Z' || 'a' <= key[i] <= 'z' || '0' <= key[i] <= '9' || key[i] == '_'
  {
    assert forall i | 0 <= i < |key| :: key[i] in key;
  }

  // ---- dot segments ----------------------------------------------------------------------------

  /** The texts that a URL parser takes for one dot or for two; none is taken for both. */
  lemma DotsExactly(s: string)
    ensures SingleDot(s) <==> s == "." || s == "%2e" || s == "%2E"
    ensures DoubleDot(s) <==> exists a, b :: s == a + b && SingleDot(a) && SingleDot(b)
    ensures !(SingleDot(s) && DoubleDot(s))
  {
    if s != "" && s[0] == '.' && SingleDot(s[1..]) { assert s == "." + s[1..]; }
    if |s| >= 3 && SingleDot(s[..3]) && SingleDot(s[3..]) { assert s == s[..3] + s[3..]; }
    if a, b :| s == a + b && SingleDot(a) && SingleDot(b) {
      assert s[|a|..] == b && s[..|a|] == a;
    }
  }

  lemma {:induction false} PastPlain(stack: seq<string>, a: seq<string>, b: seq<string>)
    requires DotFree(a) && b != []
    ensures RemoveDots(stack, a + b) == RemoveDots(stack + a, b)
    decreases |a|
  {
    hide SingleDot, DoubleDot;
    if a == [] {
      assert a + b == b && stack + a == stack;
    } else {
      assert (a + b)[0] == a[0] && (a + b)[1..] == a[1..] + b;
      PastPlain(stack + [a[0]], a[1..], b);
      assert stack + [a[0]] + a[1..] == stack + a;
    }
  }

  /** The first dot segment, a single dot, goes away; at the end of the path it leaves an empty segment. */
  lemma OneDotGoes(a: seq<string>, dot: string, b: seq<string>)
    requires DotFree(a) && SingleDot(dot)
    ensures RemoveDots([], a + [dot] + b) == if b == [] then a + [""] else RemoveDots([], a + b)
  {
    hide RemoveDots, SingleDot, DoubleDot;
    DotsExactly(dot);
    assert [] + a == a && a + [dot] + b == a + ([dot] + b);
    PastPlain([], a, [dot] + b);
    OneStep(a, dot, b);
    if b == [] {
      NothingMore(a + [""]);
    } else {
      PastPlain([], a, b);
      assert a + [] == a;
    }
  }

  /** The first dot segment, two dots, takes the segment before it along. */
  lemma TwoDotsGo(a: seq<string>, x: string, dots: string, b: seq<string>)
    requires DotFree(a) && !SingleDot(x) && !DoubleDot(x) && DoubleDot(dots)
    ensures RemoveDots([], a + [x, dots] + b) == if b == [] then a + [""] else RemoveDots([], a + b)
  {
    hide RemoveDots, SingleDot, DoubleDot;
    assert [] + a == a && a + [x, dots] + b == a + ([x] + ([dots] + b)) && (a + [x])[..|a|] == a;
    PastPlain([], a, [x] + ([dots] + b));
    OneStep(a, x, [dots] + b);
    OneStep(a + [x], dots, b);
    if b == [] {
      NothingMore(a + [""]);
    } else {
      PastPlain([], a, b);
      assert a + [] == a;
    }
  }

  /** With no segment before them, two dots go away alone. */
  lemma FirstDotsGo(dots: string, b: seq<string>)
    requires DoubleDot(dots)
    ensures RemoveDots([], [dots] + b) == if b == [] then [""] else RemoveDots([], b)
  {
    hide RemoveDots, DoubleDot;
    var none: seq<string> := [];
    OneStep(none, dots, b);
    NothingMore([""]);
    assert none + [""] == [""] && none + none == none;
  }

  lemma NothingMore(stack: seq<string>)
    ensures RemoveDots(stack, []) == stack
  {
  }

  /** One part of the parser's loop. */
  lemma {:induction false} OneStep(stack: seq<string>, part: string, rest: seq<string>)
    ensures
      var end := if rest == [] then [""] else [];
      RemoveDots(stack, [part] + rest) ==
        if DoubleDot(part) then RemoveDots((if stack == [] then [] else stack[..|stack| - 1]) + end, rest)
        else if SingleDot(part) then RemoveDots(stack + end, rest)
        else RemoveDots(stack + [part], rest)
  {
    hide SingleDot, DoubleDot;
    assert ([part] + rest)[1..] == rest;
  }

  // ---- matching --------------------------------------------------------------------------------

  /** A segment of the request where the route has this one. */
  predicate Meets(s: Segment, part: string) {
    if s.Literal? then part == s.text else part != ""
  }

  /** The last segment of an open route, if a placeholder, takes all that remains. */
  predicate TakesRest(route: seq<Segment>, open: bool) {
    open && route != [] && !route[|route| - 1].Literal?
  }

  /** The request lines up with the route, segment by segment. */
  predicate LinesUp(route: seq<Segment>, open: bool, parts: seq<string>) {
    if TakesRest(route, open) then
      var n := |route| - 1;
      |parts| > n && Join(parts[n..]) != "" && forall i | 0 <= i < n :: Meets(route[i], parts[i])
    else
      |parts| == |route| && forall i | 0 <= i < |route| :: Meets(route[i], parts[i])
  }

  /** What the placeholder at i is given. */
  function Given(route: seq<Segment>, open: bool, parts: seq<string>, i: nat): string
    requires i < |route| <= |parts|
  {
    if open && i == |route| - 1 then Join(parts[i..]) else parts[i]
  }

  /** A route matches exactly the requests that line up with it, and each placeholder captures its own segment. */
  lemma {:induction false} CapturesExactly(route: seq<Segment>, open: bool, parts: seq<string>)
    ensures Captures(route, open, parts).Some? <==> LinesUp(route, open, parts)
    ensures LinesUp(route, open, parts) ==>
      var captures := Captures(route, open, parts).value;
      && |captures| == |Names(route)|
      && forall i | 0 <= i < |route| && !route[i].Literal? ::
           && |Names(route[..i])| < |captures|
           && captures[|Names(route[..i])|] == Given(route, open, parts, i)
  {
    hide Join;
    if route != [] && parts != [] {
      CapturesExactly(route[1..], open, parts[1..]);
      LinesUpStep(route, open, parts);
      if LinesUp(route, open, parts) {
        forall i | 0 <= i < |route| && !route[i].Literal?
          ensures |Names(route[..i])| < |Captures(route, open, parts).value|
          ensures Captures(route, open, parts).value[|Names(route[..i])|] == Given(route, open, parts, i)
        {
          if i > 0 {
            assert route[..i][0] == route[0] && route[..i][1..] == route[1..][..i - 1];
            assert parts[1..][i - 1..] == parts[i..];
          } else {
            assert parts[0..] == parts;
          }
        }
      }
    }
  }

  lemma LinesUpStep(route: seq<Segment>, open: bool, parts: seq<string>)
    requires route != [] && parts != []
    ensures LinesUp(route, open, parts) <==>
      if open && |route| == 1 && !route[0].Literal? then Join(parts) != ""
      else Meets(route[0], parts[0]) && LinesUp(route[1..], open, parts[1..])
  {
    hide Join, Meets;
    assert parts[0..] == parts;
    if 1 < |route| <= |parts| { assert parts[1..][|route| - 2..] == parts[|route| - 1..]; }
    forall i | 0 < i < |route| && i < |parts| ensures route[i] == route[1..][i - 1] && parts[i] == parts[1..][i - 1] {}
  }

  // ---- collecting ------------------------------------------------------------------------------

  /** The capture at i is there to be decoded. */
  predicate ToDecode(captures: seq<string>, i: nat) {
    i < |captures| && captures[i] != ""
  }

  /** The parameters are refused exactly if some capture has a malformed escape. */
  lemma {:induction false} RefusedExactly(names: seq<string>, captures: seq<string>, n: nat)
    requires n <= |names|
    ensures Collected(names, captures, n) == None <==>
      exists i: nat :: i < n && ToDecode(captures, i) && Decode(captures[i]) == None
  {
    hide Decode;
    if n > 0 { RefusedExactly(names, captures, n - 1); }
  }

  /**
   * Otherwise they are, for names that do not repeat, the decoded captures that are not empty, each under its own
   * name.
   */
  lemma {:induction false} CollectedExactly(names: seq<string>, captures: seq<string>, n: nat)
    requires n <= |names| && Collected(names, captures, n).Some?
    requires forall i, j | 0 <= i < j < n :: names[i] != names[j]
    ensures
      var params := Collected(names, captures, n).value;
      && (forall k | k in params :: k in names[..n])
      && forall i: nat | i < n ::
           if ToDecode(captures, i) then names[i] in params && Some(params[names[i]]) == Decode(captures[i])
           else names[i] !in params
  {
    hide Decode;
    if n > 0 {
      CollectedExactly(names, captures, n - 1);
      assert names[..n] == names[..n - 1] + [names[n - 1]];
    }
  }
}
