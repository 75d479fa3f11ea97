/** What the baseline's patterns, paths and manifests mean, apart from how they are computed. */
module BaselineMeaning {
  import opened Basics
  import opened Sorting
  import opened SlashPaths
  import opened Trees
  import opened BaselinePolicy
  import opened Baseline
  import opened BaselineExact

  // ---- patterns --------------------------------------------------------------------------------

  predicate OneLine(s: string) {
    forall i | 0 <= i < |s| :: !IsLineTerminator(s[i])
  }

  /** Text without a star matches itself up to case, and leaves the rest of the pattern to match the rest. */
  lemma {:induction false} TextMatches(w: string, pattern: string, s: string)
    requires '*' !in w
    ensures Glob(w + pattern, s) <==> |w| <= |s| && SameFolded(w, s[..|w|]) && Glob(pattern, s[|w|..])
  {
    hide Fold;
    if w == "" {
      assert w + pattern == pattern && s[0..] == s;
    } else {
      assert (w + pattern)[1..] == w[1..] + pattern;
      if s != "" {
        TextMatches(w[1..], pattern, s[1..]);
        if |w| <= |s| {
          assert s[1..][|w| - 1..] == s[|w|..] && s[1..][..|w| - 1] == s[..|w|][1..];
          FoldedSplit(w, s[..|w|]);
        }
      }
    }
  }

  lemma FoldedSplit(a: string, b: string)
    requires a != "" && b != ""
    ensures SameFolded(a, b) <==> Fold(a[0]) == Fold(b[0]) && SameFolded(a[1..], b[1..])
  {
    hide Fold;
    if Fold(a[0]) == Fold(b[0]) && SameFolded(a[1..], b[1..]) {
      forall i | 0 <= i < |a| ensures Fold(a[i]) == Fold(b[i]) {
        if i > 0 { assert a[1..][i - 1] == a[i] && b[1..][i - 1] == b[i]; }
      }
    }
  }

  /** A star matches any beginning within one line. */
  lemma {:induction false} StarMatches(pattern: string, s: string)
    ensures Glob("*" + pattern, s) <==> exists k :: 0 <= k <= |s| && OneLine(s[..k]) && Glob(pattern, s[k..])
    decreases |s|
  {
    hide IsLineTerminator, OneLine;
    assert ("*" + pattern)[1..] == pattern && s[0..] == s;
    assert OneLine(s[..0]) by { NoLineEnd(); }
    if s != "" {
      StarMatches(pattern, s[1..]);
      StarUnfold(pattern, s);
      hide Glob;
      if k :| 0 <= k <= |s[1..]| && OneLine(s[1..][..k]) && Glob(pattern, s[1..][k..]) {
        OneMore(s, k);
      }
      if k :| 0 < k <= |s| && OneLine(s[..k]) && Glob(pattern, s[k..]) {
        OneMore(s, k - 1);
      }
    }
  }

  lemma NoLineEnd()
    ensures OneLine("")
  {
  }

  lemma StarUnfold(pattern: string, s: string)
    requires s != ""
    ensures Glob("*" + pattern, s) <==> Glob(pattern, s) || (!IsLineTerminator(s[0]) && Glob("*" + pattern, s[1..]))
  {
    hide IsLineTerminator;
    assert ("*" + pattern)[1..] == pattern;
  }

  lemma OneMore(s: string, k: nat)
    requires k < |s|
    ensures s[k + 1..] == s[1..][k..]
    ensures OneLine(s[..k + 1]) <==> !IsLineTerminator(s[0]) && OneLine(s[1..][..k])
  {
    hide IsLineTerminator;
    assert s[..k + 1] == [s[0]] + s[1..][..k];
  }

  /** A pattern without a star matches exactly the strings equal to it up to case. */
  lemma TextExactly(w: string, s: string)
    requires '*' !in w
    ensures Glob(w, s) <==> SameFolded(w, s)
  {
    TextMatches(w, "", s);
    assert w + "" == w;
    assert |w| == |s| ==> s[..|w|] == s;
  }

  predicate Begins(s: string, w: string) {
    |w| <= |s| && SameFolded(w, s[..|w|]) && OneLine(s[|w|..])
  }

  predicate Ends(s: string, w: string) {
    |w| <= |s| && SameFolded(w, s[|s| - |w|..]) && OneLine(s[..|s| - |w|])
  }

  predicate ContainsAt(s: string, w: string, k: int) {
    0 <= k && k + |w| <= |s| && SameFolded(w, s[k..k + |w|]) && OneLine(s[..k]) && OneLine(s[k + |w|..])
  }

  lemma StarAlone(s: string)
    ensures Glob("*", s) <==> OneLine(s)
  {
    StarMatches("", s);
    assert "*" + "" == "*" && s[..|s|] == s;
  }

  /** `w*` matches exactly the strings that begin with w. */
  lemma BeginsExactly(w: string, s: string)
    requires '*' !in w
    ensures Glob(w + "*", s) <==> Begins(s, w)
  {
    hide Glob;
    TextMatches(w, "*", s);
    if |w| <= |s| { StarAlone(s[|w|..]); }
  }

  /** `*w` matches exactly those that end in it. */
  lemma EndsExactly(w: string, s: string)
    requires '*' !in w
    ensures Glob("*" + w, s) <==> Ends(s, w)
  {
    hide Glob, SameFolded;
    StarMatches(w, s);
    forall k | 0 <= k <= |s| ensures Glob(w, s[k..]) <==> SameFolded(w, s[k..]) { TextExactly(w, s[k..]); }
    if k :| 0 <= k <= |s| && OneLine(s[..k]) && SameFolded(w, s[k..]) { SameLength(w, s[k..]); }
  }

  lemma SameLength(a: string, b: string)
    requires SameFolded(a, b)
    ensures |a| == |b|
  {
  }

  /** `*w*` matches exactly those that contain it. */
  lemma ContainsExactly(w: string, s: string)
    requires '*' !in w
    ensures Glob("*" + (w + "*"), s) <==> exists k :: ContainsAt(s, w, k)
  {
    hide Glob, SameFolded, OneLine;
    StarMatches(w + "*", s);
    forall k | 0 <= k <= |s| ensures OneLine(s[..k]) && Glob(w + "*", s[k..]) <==> ContainsAt(s, w, k) {
      BeginsExactly(w, s[k..]);
      if k + |w| <= |s| { assert s[k..][..|w|] == s[k..k + |w|] && s[k..][|w|..] == s[k + |w|..]; }
    }
  }

  // ---- the default policy ----------------------------------------------------------------------

  const NAMES: seq<string> := [
    ".git", ".env", ".venv", "node_modules", ".pytest_cache", ".ruff_cache", "__pycache__", "dist", "build", "coverage",
    "caches", "logs"]

  /** A name that the default policy leaves out, with all that is below it. */
  ghost predicate NameExcluded(s: string) {
    || (exists w | w in NAMES :: SameFolded(w, s))
    || Begins(s, ".env.") || Begins(s, "coverage.") || Ends(s, ".pyc") || Ends(s, ".egg-info")
    || (exists k :: ContainsAt(s, "secret", k) || ContainsAt(s, "token", k) || ContainsAt(s, "cookie", k))
  }

  /** Some name on the path matches the pattern. */
  ghost predicate SomeName(path: string, pattern: string) {
    exists i :: 0 <= i < |Split(path)| && Glob(pattern, Split(path)[i])
  }

  lemma NamePattern(path: string, pattern: string)
    requires SLASH !in pattern
    ensures MatchesOne(path, pattern) <==> SomeName(path, pattern)
  {
    hide Glob;
    assert pattern != "" ==> pattern[|pattern| - 1] in pattern;
  }

  lemma FirstName(name: string, more: string)
    requires SLASH !in name
    ensures name in Split(name) && name in Split(name + [SLASH] + more)
  {
    SplitFirst(name, more);
    assert Split(name)[0] == name && Split(name + [SLASH] + more)[0] == name;
  }

  lemma LaterName(name: string, before: string, after: string)
    requires name in Split(after)
    ensures name in Split(before + [SLASH] + after)
  {
    hide Split;
    SplitConcat(before, after);
  }

  lemma CutAtSlash(s: string, k: nat)
    requires k < |s| && s[k] == SLASH
    ensures s == s[..k] + [SLASH] + s[k + 1..]
  {
  }

  lemma NameFirst(s: string, k: nat)
    requires k <= |s| && SLASH !in s[..k] && (k == |s| || s[k] == SLASH)
    ensures s[..k] in Split(s)
  {
    hide Split;
    if k < |s| {
      CutAtSlash(s, k);
      FirstName(s[..k], s[k + 1..]);
    } else {
      assert s[..k] == s;
      FirstName(s, "");
    }
  }

  /** A name on a path is a stretch between slashes. */
  lemma NameAt(path: string, i: nat, j: nat)
    requires i <= j <= |path| && SLASH !in path[i..j]
    requires (i == 0 || path[i - 1] == SLASH) && (j == |path| || path[j] == SLASH)
    ensures path[i..j] in Split(path)
  {
    hide Split;
    NameOnward(path, i, j);
    if i > 0 {
      CutAtSlash(path, i - 1);
      LaterName(path[i..j], path[..i - 1], path[i..]);
    } else {
      assert path[0..] == path;
    }
  }

  lemma NameOnward(path: string, i: nat, j: nat)
    requires i <= j <= |path| && SLASH !in path[i..j] && (j == |path| || path[j] == SLASH)
    ensures path[i..j] in Split(path[i..])
  {
    hide Split;
    var after := path[i..];
    assert after[..j - i] == path[i..j];
    NameFirst(after, j - i);
  }

  /** The one default pattern with a slash excludes nothing that a name does not. */
  lemma LogsPattern(path: string)
    requires MatchesOne(path, "logs/*.log")
    ensures exists s :: s in Split(path) && SameFolded("logs", s)
  {
    hide Glob, Split, SameFolded;
    var pattern := "logs/*.log";
    assert SLASH in pattern && pattern[|pattern| - 1] == 'g';
    var i, j :| 0 <= i <= j <= |path| && (i == 0 || path[i - 1] == SLASH)
      && (j == |path| || path[j] == SLASH) && Glob(pattern, path[i..j]);
    assert pattern == "logs/" + "*.log";
    TextMatches("logs/", "*.log", path[i..j]);
    var head := path[i..j][..5];
    assert head == path[i..i + 5];
    LogsHead(head);
    assert head[..4] == path[i..i + 4];
    NameAt(path, i, i + 4);
  }

  lemma LogsHead(head: string)
    requires SameFolded("logs/", head)
    ensures |head| == 5 && head[4] == SLASH && SameFolded("logs", head[..4]) && SLASH !in head[..4]
  {
    var text := "logs/";
    assert forall i | 0 <= i < 4 :: text[i] == "logs"[i] && text[i] in ['l', 'o', 'g', 's'];
    FoldExactly(text[4], head[4]);
    forall i | 0 <= i < 4 ensures head[i] != SLASH { FoldExactly(text[i], head[i]); }
  }

  lemma NameOfText(path: string, w: string)
    requires '*' !in w && SLASH !in w
    ensures MatchesOne(path, w) <==> exists s :: s in Split(path) && SameFolded(w, s)
  {
    hide Glob, Split;
    NamePattern(path, w);
    forall i | 0 <= i < |Split(path)| ensures Glob(w, Split(path)[i]) <==> SameFolded(w, Split(path)[i]) {
      TextExactly(w, Split(path)[i]);
    }
  }

  lemma NameThatBegins(path: string, w: string)
    requires '*' !in w && SLASH !in w
    ensures MatchesOne(path, w + "*") <==> exists s :: s in Split(path) && Begins(s, w)
  {
    hide Glob, Split, Begins;
    NamePattern(path, w + "*");
    forall i | 0 <= i < |Split(path)| ensures Glob(w + "*", Split(path)[i]) <==> Begins(Split(path)[i], w) {
      BeginsExactly(w, Split(path)[i]);
    }
  }

  lemma NameThatEnds(path: string, w: string)
    requires '*' !in w && SLASH !in w
    ensures MatchesOne(path, "*" + w) <==> exists s :: s in Split(path) && Ends(s, w)
  {
    hide Glob, Split, Ends;
    NamePattern(path, "*" + w);
    forall i | 0 <= i < |Split(path)| ensures Glob("*" + w, Split(path)[i]) <==> Ends(Split(path)[i], w) {
      EndsExactly(w, Split(path)[i]);
    }
  }

  lemma NameThatContains(path: string, w: string)
    requires '*' !in w && SLASH !in w
    ensures MatchesOne(path, "*" + (w + "*")) <==> exists s, k :: s in Split(path) && ContainsAt(s, w, k)
  {
    hide Glob, Split, ContainsAt;
    NamePattern(path, "*" + (w + "*"));
    forall i | 0 <= i < |Split(path)|
      ensures Glob("*" + (w + "*"), Split(path)[i]) <==> exists k :: ContainsAt(Split(path)[i], w, k)
    {
      ContainsExactly(w, Split(path)[i]);
    }
  }

  lemma SomeDefault(path: string)
    ensures Excluded(path, DEFAULT_EXCLUSIONS) <==>
      || MatchesOne(path, ".git") || MatchesOne(path, ".env") || MatchesOne(path, ".env.*")
      || MatchesOne(path, ".venv") || MatchesOne(path, "node_modules") || MatchesOne(path, ".pytest_cache")
      || MatchesOne(path, ".ruff_cache") || MatchesOne(path, "__pycache__") || MatchesOne(path, "*.pyc")
      || MatchesOne(path, "dist") || MatchesOne(path, "build") || MatchesOne(path, "*.egg-info")
      || MatchesOne(path, "coverage") || MatchesOne(path, "coverage.*") || MatchesOne(path, "caches")
      || MatchesOne(path, "logs") || MatchesOne(path, "logs/*.log") || MatchesOne(path, "*secret*")
      || MatchesOne(path, "*token*") || MatchesOne(path, "*cookie*")
  {
    hide MatchesOne;
    var d := DEFAULT_EXCLUSIONS;
    assert d[0] == ".git" && d[1] == ".env" && d[2] == ".env.*" && d[3] == ".venv" && d[4] == "node_modules";
    assert d[5] == ".pytest_cache" && d[6] == ".ruff_cache" && d[7] == "__pycache__" && d[8] == "*.pyc";
    assert d[9] == "dist" && d[10] == "build" && d[11] == "*.egg-info" && d[12] == "coverage";
    assert d[13] == "coverage.*" && d[14] == "caches" && d[15] == "logs" && d[16] == "logs/*.log";
    assert d[17] == "*secret*" && d[18] == "*token*" && d[19] == "*cookie*" && |d| == 20;
  }

  ghost predicate ByText(path: string, w: string) {
    exists s :: s in Split(path) && SameFolded(w, s)
  }

  ghost predicate ByBeginning(path: string, w: string) {
    exists s :: s in Split(path) && Begins(s, w)
  }

  ghost predicate ByEnd(path: string, w: string) {
    exists s :: s in Split(path) && Ends(s, w)
  }

  ghost predicate ByPart(path: string, w: string) {
    exists s, k :: s in Split(path) && ContainsAt(s, w, k)
  }

  ghost predicate BySomeText(path: string) {
    exists w :: w in NAMES && ByText(path, w)
  }

  lemma SomeText(path: string)
    ensures BySomeText(path) <==>
      || MatchesOne(path, ".git") || MatchesOne(path, ".env") || MatchesOne(path, ".venv")
      || MatchesOne(path, "node_modules") || MatchesOne(path, ".pytest_cache") || MatchesOne(path, ".ruff_cache")
      || MatchesOne(path, "__pycache__") || MatchesOne(path, "dist") || MatchesOne(path, "build")
      || MatchesOne(path, "coverage") || MatchesOne(path, "caches") || MatchesOne(path, "logs")
  {
    hide MatchesOne, ByText;
    forall w | w in NAMES ensures MatchesOne(path, w) <==> ByText(path, w) { OneText(path, w); }
    var n := NAMES;
    assert n[0] == ".git" && n[1] == ".env" && n[2] == ".venv" && n[3] == "node_modules" && n[4] == ".pytest_cache";
    assert n[5] == ".ruff_cache" && n[6] == "__pycache__" && n[7] == "dist" && n[8] == "build" && n[9] == "coverage";
    assert n[10] == "caches" && n[11] == "logs" && |n| == 12;
    if w :| w in NAMES && ByText(path, w) {
      var i :| 0 <= i < |n| && n[i] == w;
      assert MatchesOne(path, n[i]);
    }
  }

  lemma OneText(path: string, w: string)
    requires w in NAMES
    ensures MatchesOne(path, w) <==> ByText(path, w)
  {
    hide MatchesOne, SameFolded, Split;
    NameOfText(path, w);
  }

  lemma OneBeginning(path: string, w: string, pattern: string)
    requires '*' !in w && SLASH !in w && pattern == w + "*"
    ensures MatchesOne(path, pattern) <==> ByBeginning(path, w)
  {
    hide MatchesOne, Begins, Split;
    NameThatBegins(path, w);
  }

  lemma OneEnd(path: string, w: string, pattern: string)
    requires '*' !in w && SLASH !in w && pattern == "*" + w
    ensures MatchesOne(path, pattern) <==> ByEnd(path, w)
  {
    hide MatchesOne, Ends, Split;
    NameThatEnds(path, w);
  }

  lemma OnePart(path: string, w: string, pattern: string)
    requires '*' !in w && SLASH !in w && pattern == "*" + (w + "*")
    ensures MatchesOne(path, pattern) <==> ByPart(path, w)
  {
    hide MatchesOne, ContainsAt, Split;
    NameThatContains(path, w);
  }

  /** The default policy leaves out exactly the paths with such a name on them. */
  lemma DefaultPolicyExactly(path: string)
    ensures Excluded(path, DEFAULT_EXCLUSIONS) <==> exists s :: s in Split(path) && NameExcluded(s)
  {
    hide Excluded, MatchesOne, BySomeText, ByText, ByBeginning, ByEnd, ByPart, NameExcluded, Split;
    SomeDefault(path);
    SomeText(path);
    OneBeginning(path, ".env.", ".env.*");
    OneBeginning(path, "coverage.", "coverage.*");
    OneEnd(path, ".pyc", "*.pyc");
    OneEnd(path, ".egg-info", "*.egg-info");
    OnePart(path, "secret", "*secret*");
    OnePart(path, "token", "*token*");
    OnePart(path, "cookie", "*cookie*");
    if MatchesOne(path, "logs/*.log") { LogsByText(path); }
    NamesCollected(path);
  }

  lemma LogsByText(path: string)
    requires MatchesOne(path, "logs/*.log")
    ensures BySomeText(path)
  {
    hide MatchesOne, Split, SameFolded;
    LogsPattern(path);
    assert "logs" == NAMES[11] && ByText(path, "logs");
  }

  /** The same, pattern by pattern and name by name. */
  lemma NamesCollected(path: string)
    ensures (exists s :: s in Split(path) && NameExcluded(s)) <==>
      || BySomeText(path)
      || ByBeginning(path, ".env.") || ByBeginning(path, "coverage.")
      || ByEnd(path, ".pyc") || ByEnd(path, ".egg-info")
      || ByPart(path, "secret") || ByPart(path, "token") || ByPart(path, "cookie")
  {
    hide Split, SameFolded, Begins, Ends, ContainsAt;
    if s :| s in Split(path) && NameExcluded(s) {
      if w :| w in NAMES && SameFolded(w, s) { assert ByText(path, w); }
    }
    if w :| w in NAMES && ByText(path, w) {
      var s :| s in Split(path) && SameFolded(w, s);
      assert NameExcluded(s);
    }
    forall s | s in Split(path) &&
        (Begins(s, ".env.") || Begins(s, "coverage.") || Ends(s, ".pyc") || Ends(s, ".egg-info"))
      ensures NameExcluded(s) { }
    forall s, k | s in Split(path) &&
        (ContainsAt(s, "secret", k) || ContainsAt(s, "token", k) || ContainsAt(s, "cookie", k))
      ensures NameExcluded(s) { }
  }

  /** So no file that a manifest was built with has such a name on its path. */
  lemma NothingExcludedIsBuilt(sha: Bytes -> string, root: Tree<Node>, allowlist: seq<string>, f: BaselineFile)
    requires root.Dir? && Built(sha, root, allowlist).Some? && f in Built(sha, root, allowlist).value
    ensures forall s | s in Split(f.path) :: !NameExcluded(s)
  {
    hide Walk, FileMetadata, ValidAllowlist, Built, Excluded, NameExcluded, Split;
    BuiltBasics(sha, root, allowlist);
    BuiltMembers(sha, root, allowlist);
    var p :| Describes(root, allowlist, p) && FileMetadata(sha, root, p) == Some(f);
    MetadataNamed(sha, root, p);
    DefaultPolicyExactly(p);
  }

  // ---- paths and manifests ---------------------------------------------------------------------

  /** A path is normal exactly if it is "." or its names are neither empty nor dots, without NUL and backslash. */
  lemma NormalExactly(v: string)
    ensures Normalize(v)
         == if v == "." || ('\0' !in v && '\\' !in v && forall s | s in Split(v) :: s !in ["", ".", ".."]) then Some(v)
            else None
  {
    hide Join, Split, HasDoubleSlash;
    JoinSplit(v);
    if v != "" && v[0] == SLASH { NameFirst(v, 0); assert v[..0] == ""; }
    if |v| >= 2 && v[..2] == "./" { StartsWithDot(v); }
    if v != "" && v[|v| - 1] == SLASH { NameAt(v, |v|, |v|); assert v[|v|..|v|] == ""; }
    if HasDoubleSlash(v) { NameBetween(v); }
    if v == "" { EmptyName(); }
    var names := Split(v);
    forall i | 0 <= i < |names| ensures names[i] in names { }
    if s :| s in names && s in ["", ".", ".."] {
      var i :| 0 <= i < |names| && names[i] == s;
      assert names[i] in [".", "..", ""];
    }
  }

  lemma StartsWithDot(v: string)
    requires |v| >= 2 && v[..2] == "./"
    ensures "." in Split(v)
  {
    hide Split;
    assert v[0] == v[..2][0] && v[1] == v[..2][1];
    NameFirst(v, 1);
    assert v[..1] == ".";
  }

  lemma NameBetween(v: string)
    requires HasDoubleSlash(v)
    ensures "" in Split(v)
  {
    hide Split;
    var i :| 0 <= i < |v| - 1 && v[i] == SLASH && v[i + 1] == SLASH;
    NameAt(v, i + 1, i + 1);
    assert v[i + 1..i + 1] == "";
  }

  lemma EmptyName()
    ensures "" in Split("")
  {
  }

  /** An allowlist is valid exactly if it has entries, all of them normal and in strictly ascending order. */
  lemma AllowlistExactly(allowlist: seq<string>)
    ensures ValidAllowlist(allowlist) <==>
      && allowlist != [] && StrictlyAscending(Less, allowlist)
      && forall e | e in allowlist ::
           e == "." || ('\0' !in e && '\\' !in e && forall s | s in Split(e) :: s !in ["", ".", ".."])
  {
    hide Normalize, Less, Sort, Split;
    forall i | 0 <= i < |allowlist|
      ensures var e := allowlist[i];
        Normalize(e).Some? <==>
          e == "." || ('\0' !in e && '\\' !in e && forall s | s in Split(e) :: s !in ["", ".", ".."])
    {
      NormalExactly(allowlist[i]);
    }
    OrderExactly(allowlist);
  }

  lemma OrderExactly(list: seq<string>)
    ensures StrictlyAscending(Less, list) <==>
      list == Sort(Less, list) && forall i, j | 0 <= i < j < |list| :: list[i] != list[j]
  {
    hide Less, Sort;
    LessStrictTotal(multiset(list));
    if forall i, j | 0 <= i < j < |list| :: list[i] != list[j] {
      assert NoDuplicates(list);
      SortStrict(Less, list);
    }
    if StrictlyAscending(Less, list) {
      forall i, j | 0 <= i < j < |list| ensures list[i] != list[j] && !Less(list[j], list[i]) {
        LessIrreflexive(list[i]);
        if Less(list[j], list[i]) { LessTransitive(list[i], list[j], list[i]); }
      }
      SortAscends(Less, list);
      AscendingUnique(Less, list, Sort(Less, list));
    }
  }

  /** Hexadecimal digits in either case. */
  predicate HexCharacters(s: string) {
    forall c | c in s :: '0' <= c <= '9' || 'a' <= c <= 'f' || 'A' <= c <= 'F'
  }

  lemma HexExactly(s: string)
    ensures IsHex64AnyCase(s) <==> |s| == 64 && HexCharacters(s)
  {
    assert forall i | 0 <= i < |s| :: s[i] in s;
  }

  /** When nothing is wrong with the header of a manifest. */
  lemma HeaderExactly(m: Manifest, rootPath: string)
    ensures HeaderProblems(m, rootPath) == [] <==>
      && m.version == 1 && m.completeness == "complete"
      && m.extrasPolicy == "reject-non-excluded" && m.symlinkPolicy == "reject-root-and-internal"
      && m.root == rootPath && ValidAllowlist(m.allowlist) && m.exclusions == DEFAULT_EXCLUSIONS
      && (m.snapshot.Some? ==>
            && m.snapshot.value.path != "" && m.snapshot.value.path[0] == '/'
            && |m.snapshot.value.sha256| == 64 && HexCharacters(m.snapshot.value.sha256))
  {
    hide ValidAllowlist, IsHex64AnyCase, HexCharacters;
    if m.snapshot.Some? { HexExactly(m.snapshot.value.sha256); }
  }

  /** A path is under an entry exactly if the entry is "." or its names are the path's first ones. */
  lemma UnderExactly(path: string, entry: string)
    ensures Under(path, entry) <==> entry == "." || Split(entry) <= Split(path)
  {
    hide Split, Join;
    JoinSplit(path);
    JoinSplit(entry);
    var p, e := Split(path), Split(entry);
    if |path| > |entry| && path[..|entry|] == entry && path[|entry|] == SLASH {
      CutAtSlash(path, |entry|);
      SplitConcat(entry, path[|entry| + 1..]);
    }
    if e <= p && |e| < |p| {
      JoinBelow(e, p[|e|..]);
      assert p == e + p[|e|..];
      var rest := Join(p[|e|..]);
      assert path == entry + [SLASH] + rest;
    }
    if e <= p && |e| == |p| { assert e == p; }
  }

  /** The metadata of a file: its path, size, permission bits and digest. */
  lemma MetadataExactly(sha: Bytes -> string, root: Tree<Node>, at: Path, bytes: Bytes, mode: nat)
    requires root.Dir? && WellNamed(root) && at != [] && CleanPath(at) && Normalize(Join(at)) == Some(Join(at))
    requires Join(at) != "."
    requires (at, Regular(bytes, mode)) in Leaves(root, [])
    ensures FileMetadata(sha, root, Join(at)) == Some(BaselineFile(Join(at), |bytes|, mode % 512, sha(bytes)))
  {
    hide Normalize;
    SplitJoin(at);
    AtIsLeaf(root, [], at, Regular(bytes, mode));
    assert [] + at == at;
  }

  /** A regular file of the tree whose names the policy lets through, at or below an entry of the allowlist. */
  ghost predicate Wanted(root: Tree<Node>, allowlist: seq<string>, x: (Path, Node)) {
    && x.0 != [] && x.1.Regular? && x in Leaves(root, [])
    && (forall s | s in x.0 :: !NameExcluded(s))
    && exists entry :: entry in allowlist && (entry == "." || Split(entry) <= x.0)
  }

  /** A manifest lists exactly the wanted files, each with its size, permission bits and digest. */
  lemma BuiltExactly(sha: Bytes -> string, root: Tree<Node>, allowlist: seq<string>, f: BaselineFile)
    requires root.Dir? && WellNamed(root) && Built(sha, root, allowlist).Some?
    ensures f in Built(sha, root, allowlist).value <==>
      exists x :: Wanted(root, allowlist, x) && x.1.Regular?
        && f == BaselineFile(Str(x.0), |x.1.bytes|, x.1.mode % 512, sha(x.1.bytes))
  {
    hide Built, FileMetadata, Walk, ValidAllowlist, Wanted, Describes, WellNamed;
    BuiltBasics(sha, root, allowlist);
    BuiltMembers(sha, root, allowlist);
    if f in Built(sha, root, allowlist).value {
      var p :| Describes(root, allowlist, p) && FileMetadata(sha, root, p) == Some(f);
      var x := DescribedIsWanted(root, allowlist, p);
      WantedMetadata(sha, root, allowlist, x);
    }
    if x :| Wanted(root, allowlist, x) && x.1.Regular?
            && f == BaselineFile(Str(x.0), |x.1.bytes|, x.1.mode % 512, sha(x.1.bytes))
    {
      WantedIsDescribed(root, allowlist, x);
      WantedMetadata(sha, root, allowlist, x);
    }
  }

  lemma WantedMetadata(sha: Bytes -> string, root: Tree<Node>, allowlist: seq<string>, x: (Path, Node))
    requires root.Dir? && WellNamed(root) && Wanted(root, allowlist, x)
    requires FileMetadata(sha, root, Str(x.0)).Some?
    ensures FileMetadata(sha, root, Str(x.0))
         == Some(BaselineFile(Str(x.0), |x.1.bytes|, x.1.mode % 512, sha(x.1.bytes)))
  {
    hide FileMetadata, WellNamed, Leaves, NameExcluded;
    LeavesClean(root, [], x);
    MetadataNamed(sha, root, Str(x.0));
    MetadataExactly(sha, root, x.0, x.1.bytes, x.1.mode);
  }

  lemma DescribedIsWanted(root: Tree<Node>, allowlist: seq<string>, p: string) returns (x: (Path, Node))
    requires root.Dir? && WellNamed(root) && Walk(root.entries, []).Some? && Describes(root, allowlist, p)
    ensures Wanted(root, allowlist, x) && x.1.Regular? && p == Str(x.0)
  {
    hide Walk, WellNamed, Excluded, NameExcluded, Split, Under;
    PruningSound(root.entries, []);
    var leaves := EntriesLeaves(root.entries, []);
    KeptMembers(leaves, p);
    x :| x in leaves && x.1.Regular? && Str(x.0) == p && !Excluded(p, DEFAULT_EXCLUSIONS);
    EntriesLeavesBelow(root.entries, [], x);
    LeavesClean(root, [], x);
    SplitJoin(x.0);
    DefaultPolicyExactly(p);
    var i :| 0 <= i < |allowlist| && Under(p, allowlist[i]);
    UnderExactly(p, allowlist[i]);
    assert allowlist[i] in allowlist;
  }

  lemma WantedIsDescribed(root: Tree<Node>, allowlist: seq<string>, x: (Path, Node))
    requires root.Dir? && WellNamed(root) && Walk(root.entries, []).Some? && Wanted(root, allowlist, x)
    ensures Describes(root, allowlist, Str(x.0))
  {
    hide Walk, WellNamed, Excluded, NameExcluded, Split, Under;
    var p := Str(x.0);
    LeavesClean(root, [], x);
    SplitJoin(x.0);
    DefaultPolicyExactly(p);
    PruningSound(root.entries, []);
    KeptMembers(EntriesLeaves(root.entries, []), p);
    assert x in EntriesLeaves(root.entries, []);
    var entry :| entry in allowlist && (entry == "." || Split(entry) <= x.0);
    var i :| 0 <= i < |allowlist| && allowlist[i] == entry;
    UnderExactly(p, entry);
  }

  /** Of two modes only the owner's executable bit counts in a checkout. */
  lemma CheckoutModes(a: int, b: int)
    ensures ModeMatches(GitExecutableBit, a, b) <==> (a % 128 >= 64 <==> b % 128 >= 64)
    ensures ModeMatches(Exact, a, b) <==> a == b
  {
  }

  /** The files of a manifest are listed in ascending order of paths. */
  lemma BuiltAscends(sha: Bytes -> string, root: Tree<Node>, allowlist: seq<string>)
    requires root.Dir? && Built(sha, root, allowlist).Some?
    ensures Ascending(Less, Map((f: BaselineFile) => f.path, Built(sha, root, allowlist).value))
  {
    hide Walk, FileMetadata, ValidAllowlist, AllowedOf, Less, Sort;
    var paths := Sort(Less, AllowedOf(Walk(root.entries, []).value, allowlist));
    var built := Built(sha, root, allowlist).value;
    LessStrictTotal(multiset(AllowedOf(Walk(root.entries, []).value, allowlist)));
    SortAscends(Less, AllowedOf(Walk(root.entries, []).value, allowlist));
    forall i | 0 <= i < |paths| ensures built[i].path == paths[i] { MetadataNamed(sha, root, paths[i]); }
    assert Map((f: BaselineFile) => f.path, built) == paths;
  }

  /** Under either mode policy, the verifier accepts for a tree the manifest that was built from it. */
  lemma {:induction false} BuiltManifestVerifies(
      sha: Bytes -> string, rootPath: string, root: Tree<Node>, allowlist: seq<string>, snapshot: Option<Snapshot>,
      policy: ModePolicy)
    requires root.Dir? && WellNamed(root) && Built(sha, root, allowlist).Some?
    requires forall b :: IsHex64(sha(b))
    requires snapshot.Some? ==>
      snapshot.value.path != "" && snapshot.value.path[0] == SLASH && IsHex64(snapshot.value.sha256)
    ensures
      var m := Manifest(1, rootPath, Built(sha, root, allowlist).value, allowlist, DEFAULT_EXCLUSIONS, snapshot,
        "complete", "reject-non-excluded", "reject-root-and-internal");
      Accepts(sha, rootPath, root, m, policy)
  {
    hide Built, ValidAllowlist, Accepts, IsHex64, FileMetadata, Walk, ValidMetadata, ItemMatches;
    var built := Built(sha, root, allowlist).value;
    var m := Manifest(1, rootPath, built, allowlist, DEFAULT_EXCLUSIONS, snapshot,
      "complete", "reject-non-excluded", "reject-root-and-internal");
    BuiltBasics(sha, root, allowlist);
    BuiltDistinct(sha, root, allowlist);
    BuiltAllValid(sha, root, allowlist);
    if snapshot.Some? { HexAnyCase(snapshot.value.sha256); }
    forall f | f in built ensures Same(policy, f, f) { SameItself(policy, f); }
    assert SameFiles(policy, built, m.files);
    BuiltIsAccepted(sha, rootPath, root, m, policy);
  }

  lemma SameItself(policy: ModePolicy, f: BaselineFile)
    ensures Same(policy, f, f)
  {
  }
}
