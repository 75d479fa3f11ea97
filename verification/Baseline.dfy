/** Building and verifying a baseline manifest of a directory tree. */
module Baseline {
  import opened Basics
  import opened Sorting
  import opened SlashPaths
  import opened Trees
  import opened BaselinePolicy

  /** What `lstat` says of something that is not a directory. */
  datatype Node = Regular(bytes: Bytes, mode: nat) | Symlink | Other

  datatype BaselineFile = BaselineFile(path: string, bytes: int, mode: int, sha256: string)
  datatype Snapshot = Snapshot(path: string, sha256: string)
  datatype Manifest = Manifest(
    version: int, root: string, files: seq<BaselineFile>, allowlist: seq<string>, exclusions: seq<string>,
    snapshot: Option<Snapshot>, completeness: string, extrasPolicy: string, symlinkPolicy: string)

  datatype ModePolicy = Exact | GitExecutableBit

  datatype Problem =
    | PolicyInvalid | RootMismatch | SnapshotInvalid | AllowlistInvalid | ExclusionsInvalid
    | MetadataInvalid | PathInvalid(path: string) | OutsideAllowlist(path: string) | IsExcluded(path: string)
    | Duplicate(path: string) | Mismatch(path: string, field: string) | MissingOrUnsafe(path: string)
    | Extra(path: string) | WalkRejected

  // ---- paths and policies ----------------------------------------------------------------------

  predicate HasDoubleSlash(s: string) {
    exists i | 0 <= i < |s| - 1 :: s[i] == SLASH && s[i + 1] == SLASH
  }

  function Normalize(value: string): Option<string> {
    if '\0' in value then None
    else if '\\' in value then None
    else if value != "" && value[0] == SLASH then None
    else if value == "." then Some(value)
    else if |value| >= 2 && value[..2] == "./" then None
    else if value != "" && value[|value| - 1] == SLASH then None
    else if HasDoubleSlash(value) then None
    else
      var segments := Split(value);
      if exists i | 0 <= i < |segments| :: segments[i] in [".", "..", ""] then None
      else if Join(segments) != value then None
      else Some(Join(segments))
  }

  predicate ValidAllowlist(allowlist: seq<string>) {
    && allowlist != []
    && (forall i | 0 <= i < |allowlist| :: Normalize(allowlist[i]).Some?)
    && (forall i, j | 0 <= i < j < |allowlist| :: allowlist[i] != allowlist[j])
    && allowlist == Sort(Less, allowlist)
  }

  predicate Under(path: string, entry: string) {
    entry == "." || path == entry || (|path| > |entry| && path[..|entry|] == entry && path[|entry|] == SLASH)
  }

  predicate Listed(path: string, allowlist: seq<string>) {
    exists i | 0 <= i < |allowlist| :: Under(path, allowlist[i])
  }

  predicate Allowed(path: string, allowlist: seq<string>) {
    Listed(path, allowlist) && !Excluded(path, DEFAULT_EXCLUSIONS)
  }

  // ---- the walk --------------------------------------------------------------------------------

  /** Excluded subtrees are cut off whole; any symbolic link that is reached, excluded or not, rejects. */
  function Walk(entries: seq<DirEntry<Node>>, at: Path): Option<seq<string>> {
    if entries == [] then Some([])
    else
      var here, node := at + [entries[0].name], entries[0].node;
      if node == Leaf(Symlink) then None
      else
        var first := if Excluded(Join(here), DEFAULT_EXCLUSIONS) then Some([]) else
          match node
          case Dir(below) => Walk(below, here)
          case Leaf(Regular(_, _)) => Some([Join(here)])
          case Leaf(_) => Some([]);
        var rest := Walk(entries[1..], at);
        if first == None || rest == None then None else Some(first.value + rest.value)
  }

  /** A walk's result with files already found in front of it. */
  function Prepend(found: seq<string>, r: Option<seq<string>>): Option<seq<string>> {
    if r == None then None else Some(found + r.value)
  }

  lemma PrependTwice(a: seq<string>, b: seq<string>, r: Option<seq<string>>)
    ensures Prepend(a, Prepend(b, r)) == Prepend(a + b, r)
    ensures Prepend([], r) == r
  {
    if r.Some? {
      assert a + (b + r.value) == (a + b) + r.value;
      assert [] + r.value == r.value;
    }
  }

  method WalkDirectory(entries: seq<DirEntry<Node>>, at: Path) returns (files: Option<seq<string>>)
    ensures files == Walk(entries, at)
    decreases entries
  {
    var found: seq<string> := [];
    assert entries[0..] == entries;
    PrependTwice([], [], Walk(entries, at));
    for i := 0 to |entries|
      invariant Walk(entries, at) == Prepend(found, Walk(entries[i..], at))
    {
      var here, node := at + [entries[i].name], entries[i].node;
      assert entries[i..][1..] == entries[i + 1..] && entries[i..][0] == entries[i];
      var rest := entries[i + 1..];
      PrependTwice([], [], Walk(rest, at));
      if node == Leaf(Symlink) { return None; }
      if Excluded(Join(here), DEFAULT_EXCLUSIONS) { continue; }
      match node {
        case Dir(below) =>
          var sub := WalkDirectory(below, here);
          if sub == None { return None; }
          PrependTwice(found, sub.value, Walk(rest, at));
          found := found + sub.value;
        case Leaf(Regular(_, _)) =>
          PrependTwice(found, [Join(here)], Walk(rest, at));
          found := found + [Join(here)];
        case Leaf(_) =>
      }
    }
    assert entries[|entries|..] == [] && found + [] == found;
    return Some(found);
  }

  // ---- one file --------------------------------------------------------------------------------

  function Find(entries: seq<DirEntry<Node>>, name: string): Option<Tree<Node>> {
    if entries == [] then None
    else if entries[0].name == name then Some(entries[0].node)
    else Find(entries[1..], name)
  }

  /** The node a list of names leads to, not following symbolic links. */
  function At(t: Tree<Node>, path: Path): Option<Tree<Node>>
    decreases |path|
  {
    if path == [] then Some(t)
    else if t.Leaf? then None
    else
      var next := Find(t.entries, path[0]);
      if next == None then None else At(next.value, path[1..])
  }

  function FileMetadata(sha: Bytes -> string, root: Tree<Node>, path: string): Option<BaselineFile> {
    var rel := Normalize(path);
    if rel == None || rel.value == "." then None
    else
      match At(root, Split(rel.value))
      case Some(Leaf(Regular(bytes, mode))) => Some(BaselineFile(rel.value, |bytes|, mode % 512, sha(bytes)))
      case _ => None
  }

  // ---- build -----------------------------------------------------------------------------------

  function AllowedOf(paths: seq<string>, allowlist: seq<string>): (r: seq<string>)
    ensures forall p :: p in r <==> p in paths && Allowed(p, allowlist)
  {
    if paths == [] then []
    else (if Allowed(paths[0], allowlist) then [paths[0]] else []) + AllowedOf(paths[1..], allowlist)
  }

  /** The files section of the manifest for a tree and allowlist, or nothing where the build throws. */
  function Built(sha: Bytes -> string, root: Tree<Node>, allowlist: seq<string>): Option<seq<BaselineFile>>
    requires root.Dir?
  {
    if !ValidAllowlist(allowlist) then None
    else
      var walked := Walk(root.entries, []);
      if walked == None then None
      else
        var paths := Sort(Less, AllowedOf(walked.value, allowlist));
        if exists i | 0 <= i < |paths| :: FileMetadata(sha, root, paths[i]) == None then None
        else Some(seq(|paths|, i requires 0 <= i < |paths| => FileMetadata(sha, root, paths[i]).value))
  }

  method BuildBaselineManifest(sha: Bytes -> string, rootPath: string, root: Tree<Node>, allowlist: seq<string>,
                               exclusions: seq<string>, snapshot: Option<Snapshot>)
    returns (r: Option<Manifest>)
    requires root.Dir?
    ensures r.Some? <==> exclusions == DEFAULT_EXCLUSIONS && Built(sha, root, allowlist).Some?
    ensures r.Some? ==>
      r.value == Manifest(
        1, rootPath, Built(sha, root, allowlist).value, allowlist, DEFAULT_EXCLUSIONS, snapshot,
        "complete", "reject-non-excluded", "reject-root-and-internal")
  {
    hide ValidAllowlist, Walk, FileMetadata;
    if !ValidAllowlist(allowlist) { return None; }
    if exclusions != DEFAULT_EXCLUSIONS { return None; }
    var walked := WalkDirectory(root.entries, []);
    if walked == None { return None; }
    var discovered := Sort(Less, AllowedOf(walked.value, allowlist));
    var files: seq<BaselineFile> := [];
    for i := 0 to |discovered|
      invariant |files| == i
      invariant forall j | 0 <= j < i :: FileMetadata(sha, root, discovered[j]) == Some(files[j])
    {
      var meta := FileMetadata(sha, root, discovered[i]);
      if meta == None { return None; }
      files := files + [meta.value];
    }
    assert files == Built(sha, root, allowlist).value;
    return Some(Manifest(1, rootPath, files, allowlist, DEFAULT_EXCLUSIONS, snapshot,
                         "complete", "reject-non-excluded", "reject-root-and-internal"));
  }

  // ---- verify ----------------------------------------------------------------------------------

  predicate IsHexDigit(c: char) {
    IsLowerHex(c) || 'A' <= c <= 'F'
  }

  predicate IsHex64AnyCase(s: string) {
    |s| == 64 && forall i | 0 <= i < 64 :: IsHexDigit(s[i])
  }

  predicate ValidMetadata(item: BaselineFile) {
    item.bytes >= 0 && 0 <= item.mode <= 511 && IsHex64AnyCase(item.sha256)
  }

  function HeaderProblems(m: Manifest, rootPath: string): seq<Problem> {
    (if m.version != 1 || m.completeness != "complete" || m.extrasPolicy != "reject-non-excluded"
        || m.symlinkPolicy != "reject-root-and-internal" then [PolicyInvalid] else [])
    + (if m.root != rootPath then [RootMismatch] else [])
    + (if m.snapshot.Some? && (m.snapshot.value.path == "" || m.snapshot.value.path[0] != SLASH
        || !IsHex64AnyCase(m.snapshot.value.sha256)) then [SnapshotInvalid] else [])
    + (if !ValidAllowlist(m.allowlist) then [AllowlistInvalid] else [])
    + (if m.exclusions != DEFAULT_EXCLUSIONS then [ExclusionsInvalid] else [])
  }

  /** The first thing wrong with one manifest entry, before the disk is looked at. */
  function ItemProblem(m: Manifest, allowlist: seq<string>, item: BaselineFile, seen: set<string>): Option<Problem> {
    if !ValidMetadata(item) then Some(MetadataInvalid)
    else
      var path := Normalize(item.path);
      if path == None || path.value != item.path then Some(PathInvalid(item.path))
      else if !Listed(path.value, allowlist) then Some(OutsideAllowlist(item.path))
      else if Excluded(path.value, m.exclusions) then Some(IsExcluded(item.path))
      else if path.value in seen then Some(Duplicate(item.path))
      else None
  }

  predicate ModeMatches(policy: ModePolicy, actual: int, pinned: int) {
    match policy
    case Exact => actual == pinned
    case GitExecutableBit => actual / 64 % 2 == pinned / 64 % 2
  }

  predicate ItemMatches(policy: ModePolicy, actual: BaselineFile, item: BaselineFile) {
    actual.bytes == item.bytes && actual.sha256 == item.sha256 && ModeMatches(policy, actual.mode, item.mode)
  }

  /** Every entry is acceptable on its own and no path comes twice. */
  ghost predicate ItemsAcceptable(m: Manifest) {
    && (forall i | 0 <= i < |m.files| :: ItemProblem(m, m.allowlist, m.files[i], {}) == None)
    && (forall i, j | 0 <= i < j < |m.files| :: m.files[i].path != m.files[j].path)
  }

  /** What `valid: true` says. */
  ghost predicate Accepts(sha: Bytes -> string, rootPath: string, root: Tree<Node>, m: Manifest, policy: ModePolicy)
    requires root.Dir?
  {
    && HeaderProblems(m, rootPath) == []
    && ItemsAcceptable(m)
    && (forall i | 0 <= i < |m.files| ::
          var actual := FileMetadata(sha, root, m.files[i].path);
          actual.Some? && ItemMatches(policy, actual.value, m.files[i]))
    && var walked := Walk(root.entries, []);
       walked.Some? &&
       forall p | p in walked.value && Allowed(p, m.allowlist) ::
         exists i :: 0 <= i < |m.files| && m.files[i].path == p
  }

  ghost predicate AcceptableUpTo(m: Manifest, n: nat)
    requires n <= |m.files|
  {
    && (forall i | 0 <= i < n :: ItemProblem(m, m.allowlist, m.files[i], {}) == None)
    && (forall i, j | 0 <= i < j < n :: m.files[i].path != m.files[j].path)
  }

  ghost predicate MatchUpTo(sha: Bytes -> string, root: Tree<Node>, m: Manifest, policy: ModePolicy, n: nat)
    requires n <= |m.files|
  {
    forall i | 0 <= i < n ::
      var actual := FileMetadata(sha, root, m.files[i].path);
      actual.Some? && ItemMatches(policy, actual.value, m.files[i])
  }

  function PathsOf(files: seq<BaselineFile>): set<string> {
    set f | f in files :: f.path
  }

  lemma AcceptOne(m: Manifest, n: nat, seen: set<string>)
    requires n < |m.files| && AcceptableUpTo(m, n) && seen == PathsOf(m.files[..n])
    ensures AcceptableUpTo(m, n + 1) <==> ItemProblem(m, m.allowlist, m.files[n], seen) == None
    ensures ItemProblem(m, m.allowlist, m.files[n], seen) == None ==>
      Normalize(m.files[n].path) == Some(m.files[n].path)
    ensures PathsOf(m.files[..n + 1]) == seen + {m.files[n].path}
  {
    hide ValidMetadata, Normalize, Listed, Excluded;
    assert m.files[..n + 1] == m.files[..n] + [m.files[n]];
    forall i | 0 <= i < n ensures m.files[i].path in seen {
      assert m.files[i] in m.files[..n];
    }
    if m.files[n].path in seen {
      var f :| f in m.files[..n] && f.path == m.files[n].path;
      var i :| 0 <= i < n && m.files[i] == f;
    }
  }

  /** The entry checks: errors stay empty exactly while every entry so far is acceptable. */
  method CheckItems(m: Manifest, allowlist: seq<string>, header: seq<Problem>)
    returns (errors: seq<Problem>, candidates: seq<BaselineFile>)
    requires header == [] ==> allowlist == m.allowlist
    ensures errors == [] <==> header == [] && ItemsAcceptable(m)
    ensures errors == [] ==> candidates == m.files
  {
    hide Normalize, ItemProblem, AcceptableUpTo;
    AcceptNone(m);
    errors, candidates := header, [];
    var seen: set<string> := {};
    for i := 0 to |m.files|
      invariant errors == [] <==> header == [] && AcceptableUpTo(m, i)
      invariant errors == [] ==> candidates == m.files[..i] && seen == PathsOf(m.files[..i])
    {
      var item := m.files[i];
      if errors == [] {
        AcceptOne(m, i, seen);
      } else {
        AcceptFewer(m, i);
      }
      var problem := ItemProblem(m, allowlist, item, seen);
      if problem.Some? {
        errors := errors + [problem.value];
      } else {
        var path := Normalize(item.path);
        seen := seen + {if path.Some? then path.value else item.path};
        candidates := candidates + [item];
      }
    }
    AcceptAll(m);
  }

  lemma AcceptNone(m: Manifest)
    ensures AcceptableUpTo(m, 0)
  {
  }

  lemma AcceptFewer(m: Manifest, n: nat)
    requires n < |m.files|
    ensures AcceptableUpTo(m, n + 1) ==> AcceptableUpTo(m, n)
  {
    hide ItemProblem;
  }

  lemma AcceptAll(m: Manifest)
    ensures AcceptableUpTo(m, |m.files|) <==> ItemsAcceptable(m)
  {
    hide ItemProblem;
  }

  /** Reading every listed file back: errors stay empty exactly while every entry matches the disk. */
  method CheckFiles(sha: Bytes -> string, root: Tree<Node>, m: Manifest, policy: ModePolicy)
    returns (errors: seq<Problem>, expected: set<string>)
    ensures errors == [] <==> MatchUpTo(sha, root, m, policy, |m.files|)
    ensures errors == [] ==> expected == PathsOf(m.files)
  {
    hide FileMetadata, ModeMatches;
    errors, expected := [], {};
    for i := 0 to |m.files|
      invariant errors == [] <==> MatchUpTo(sha, root, m, policy, i)
      invariant errors == [] ==> expected == PathsOf(m.files[..i])
    {
      var item := m.files[i];
      assert m.files[..i + 1] == m.files[..i] + [item];
      var actual := FileMetadata(sha, root, item.path);
      if actual == None {
        errors := errors + [MissingOrUnsafe(item.path)];
      } else {
        expected := expected + {item.path};
        if actual.value.bytes != item.bytes { errors := errors + [Mismatch(item.path, "bytes")]; }
        if actual.value.sha256 != item.sha256 { errors := errors + [Mismatch(item.path, "sha256")]; }
        if !ModeMatches(policy, actual.value.mode, item.mode) { errors := errors + [Mismatch(item.path, "mode")]; }
      }
    }
    assert m.files[..|m.files|] == m.files;
  }

  ghost predicate NoExtras(root: Tree<Node>, m: Manifest, expected: set<string>)
    requires root.Dir?
  {
    var walked := Walk(root.entries, []);
    walked.Some? && forall p | p in walked.value && Allowed(p, m.allowlist) :: p in expected
  }

  /** The second walk of the tree: every allowed file it finds must have been listed. */
  method CheckExtras(root: Tree<Node>, m: Manifest, expected: set<string>) returns (errors: seq<Problem>)
    requires root.Dir?
    ensures errors == [] <==> NoExtras(root, m, expected)
  {
    hide Allowed;
    var walked := WalkDirectory(root.entries, []);
    if walked == None { return [WalkRejected]; }
    var discovered := AllowedOf(walked.value, m.allowlist);
    errors := [];
    for i := 0 to |discovered|
      invariant errors == [] <==> forall p | p in discovered[..i] :: p in expected
    {
      assert discovered[..i + 1] == discovered[..i] + [discovered[i]];
      if discovered[i] !in expected { errors := errors + [Extra(discovered[i])]; }
    }
    assert discovered[..|discovered|] == discovered;
  }

  method VerifyBaselineManifest(
      sha: Bytes -> string, rootPath: string, root: Tree<Node>, m: Manifest, policy: ModePolicy)
    returns (valid: bool, errors: seq<Problem>)
    requires root.Dir?
    ensures valid <==> errors == []
    ensures valid <==> Accepts(sha, rootPath, root, m, policy)
  {
    hide ItemsAcceptable, Walk, FileMetadata, Allowed, ItemMatches, ValidAllowlist;
    var header := HeaderProblems(m, rootPath);
    var allowlist := if ValidAllowlist(m.allowlist) then m.allowlist else [];
    var candidates;
    errors, candidates := CheckItems(m, allowlist, header);
    if errors != [] { return false, errors; }
    var mismatches, expected := CheckFiles(sha, root, m, policy);
    var extras := CheckExtras(root, m, expected);
    errors := mismatches + extras;
    valid := errors == [];
    if mismatches == [] {
      PathsAsIndices(m.files);
    }
  }

  lemma PathsAsIndices(files: seq<BaselineFile>)
    ensures forall p :: p in PathsOf(files) <==> exists i :: 0 <= i < |files| && files[i].path == p
  {
    forall p ensures p in PathsOf(files) <==> exists i :: 0 <= i < |files| && files[i].path == p {
      if p in PathsOf(files) {
        var f :| f in files && f.path == p;
        var i :| 0 <= i < |files| && files[i] == f;
      }
    }
  }
}
