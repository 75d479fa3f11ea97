/** Slash-separated path strings and their segments. */
module SlashPaths {
  const SLASH: char := '/'

  /** The pieces between slashes, as `split('/')` gives them. */
  function Split(s: string): (r: seq<string>)
    ensures |r| > 0
  {
    if s == "" then [""]
    else
      var rest := Split(s[1..]);
      if s[0] == SLASH then [""] + rest else [[s[0]] + rest[0]] + rest[1..]
  }

  function WithoutTrailingSlash(path: string): string {
    if path != "" && path[|path| - 1] == SLASH then path[..|path| - 1] else path
  }

  function Join(segments: seq<string>): string
    requires segments != []
  {
    if |segments| == 1 then segments[0]
    else segments[0] + [SLASH] + Join(segments[1..])
  }

  ghost predicate SlashFree(segments: seq<string>) {
    forall i | 0 <= i < |segments| :: SLASH !in segments[i]
  }

  lemma {:induction false} SplitSlashFree(s: string)
    ensures SlashFree(Split(s))
  {
    if s != "" { SplitSlashFree(s[1..]); }
  }

  lemma {:induction false} JoinSplit(s: string)
    ensures Join(Split(s)) == s
  {
    if s != "" {
      JoinSplit(s[1..]);
      var rest := Split(s[1..]);
      assert s == [s[0]] + s[1..];
      if s[0] != SLASH {
        assert Split(s)[1..] == rest[1..];
        if |rest| > 1 {
          assert Join(Split(s)) == ([s[0]] + rest[0]) + [SLASH] + Join(rest[1..]);
        }
      } else {
        assert Split(s)[1..] == rest;
      }
    }
  }

  /** Splitting a slash-free first piece followed by a slash peels that piece off. */
  lemma {:induction false} SplitFirst(first: string, rest: string)
    requires SLASH !in first
    ensures Split(first) == [first]
    ensures Split(first + [SLASH] + rest) == [first] + Split(rest)
  {
    var whole := first + [SLASH] + rest;
    if first == "" {
      assert whole[1..] == rest;
    } else {
      SplitFirst(first[1..], rest);
      assert first == [first[0]] + first[1..];
      assert whole[1..] == first[1..] + [SLASH] + rest;
    }
  }

  lemma {:induction false} SplitJoin(segments: seq<string>)
    requires segments != [] && SlashFree(segments)
    ensures Split(Join(segments)) == segments
  {
    SplitFirst(segments[0], "");
    if |segments| > 1 {
      SplitJoin(segments[1..]);
      SplitFirst(segments[0], Join(segments[1..]));
      assert segments == [segments[0]] + segments[1..];
    }
  }

  /** Different slash-free segment lists give different path strings. */
  lemma JoinInjective(a: seq<string>, b: seq<string>)
    requires a != [] && b != [] && SlashFree(a) && SlashFree(b)
    requires Join(a) == Join(b)
    ensures a == b
  {
    SplitJoin(a);
    SplitJoin(b);
  }
}
