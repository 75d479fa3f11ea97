/** Which paths a baseline leaves out: segment globs and slash patterns, matched without regard to ASCII case. */
module BaselinePolicy {
  import opened Basics
  import opened SlashPaths

  const DEFAULT_EXCLUSIONS: seq<string> := [
    ".git", ".env", ".env.*", ".venv", "node_modules", ".pytest_cache", ".ruff_cache", "__pycache__", "*.pyc",
    "dist", "build", "*.egg-info", "coverage", "coverage.*", "caches", "logs", "logs/*.log",
    "*secret*", "*token*", "*cookie*"]

  /** The characters a regular expression's `.` does not match. */
  predicate IsLineTerminator(c: char) {
    c == '\n' || c == '\r' || c == '\U{2028}' || c == '\U{2029}'
  }

  /** The whole of s matches the pattern, where `*` stands for any run within one line. */
  predicate Glob(pattern: string, s: string)
    decreases |pattern| + |s|
  {
    if pattern == "" then s == ""
    else if pattern[0] == '*' then
      Glob(pattern[1..], s) || (s != "" && !IsLineTerminator(s[0]) && Glob(pattern, s[1..]))
    else s != "" && Fold(pattern[0]) == Fold(s[0]) && Glob(pattern[1..], s[1..])
  }

  /** Some run of whole segments of the path matches a pattern that contains a slash. */
  predicate SlashMatch(pattern: string, path: string) {
    exists i, j | 0 <= i <= j <= |path| ::
      && (i == 0 || path[i - 1] == SLASH)
      && (j == |path| || path[j] == SLASH)
      && Glob(pattern, path[i..j])
  }

  predicate MatchesOne(path: string, pattern: string) {
    var normalized := WithoutTrailingSlash(pattern);
    if SLASH in normalized then SlashMatch(normalized, path)
    else exists i | 0 <= i < |Split(path)| :: Glob(normalized, Split(path)[i])
  }

  predicate Excluded(path: string, exclusions: seq<string>) {
    exists i | 0 <= i < |exclusions| :: MatchesOne(path, exclusions[i])
  }

  lemma {:induction false} SplitConcat(a: string, b: string)
    ensures Split(a + [SLASH] + b) == Split(a) + Split(b)
  {
    var whole := a + [SLASH] + b;
    if a == "" {
      assert whole[1..] == b;
    } else {
      assert whole[1..] == a[1..] + [SLASH] + b;
      SplitConcat(a[1..], b);
    }
  }

  lemma MatchInherited(path: string, rest: string, pattern: string)
    requires MatchesOne(path, pattern)
    ensures MatchesOne(path + [SLASH] + rest, pattern)
  {
    var normalized, longer := WithoutTrailingSlash(pattern), path + [SLASH] + rest;
    if SLASH in normalized {
      var i, j :| 0 <= i <= j <= |path| && (i == 0 || path[i - 1] == SLASH)
        && (j == |path| || path[j] == SLASH) && Glob(normalized, path[i..j]);
      assert longer[i..j] == path[i..j];
      assert j == |path| ==> longer[j] == SLASH;
    } else {
      SplitConcat(path, rest);
      var i :| 0 <= i < |Split(path)| && Glob(normalized, Split(path)[i]);
      assert Split(longer)[i] == Split(path)[i];
    }
  }

  /** Once a path is excluded, so is everything below it, for both kinds of pattern. */
  lemma ExclusionInherited(path: string, rest: string, exclusions: seq<string>)
    requires Excluded(path, exclusions)
    ensures Excluded(path + [SLASH] + rest, exclusions)
  {
    var i :| 0 <= i < |exclusions| && MatchesOne(path, exclusions[i]);
    MatchInherited(path, rest, exclusions[i]);
  }
}
