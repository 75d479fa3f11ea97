/** The verifier accepts exactly the manifests the builder would produce, and pruning loses nothing. */
module BaselineExact {
  import opened Basics
  import opened Sorting
  import opened SlashPaths
  import opened Trees
  import opened BaselinePolicy
  import opened Baseline

  function Str(p: Path): string {
    if p == [] then "" else Join(p)
  }

  // ---- pruning ---------------------------------------------------------------------------------

  /** A full traversal followed by a filter: every regular file not excluded by its own path. */
  ghost function Kept(leaves: seq<(Path, Node)>): seq<string> {
    if leaves == [] then []
    else
      var (p, node) := leaves[0];
      (if node.Regular? && !Excluded(Str(p), DEFAULT_EXCLUSIONS) then [Str(p)] else []) + Kept(leaves[1..])
  }

  lemma {:induction false} KeptConcat(a: seq<(Path, Node)>, b: seq<(Path, Node)>)
    ensures Kept(a + b) == Kept(a) + Kept(b)
  {
    if a == [] {
      assert a + b == b;
    } else {
      assert (a + b)[1..] == a[1..] + b;
      KeptConcat(a[1..], b);
    }
  }

  lemma {:induction false} KeptNone(leaves: seq<(Path, Node)>)
    requires forall x | x in leaves :: Excluded(Str(x.0), DEFAULT_EXCLUSIONS)
    ensures Kept(leaves) == []
  {
    if leaves != [] {
      assert leaves[0] in leaves;
      KeptNone(leaves[1..]);
    }
  }

  lemma {:induction false} KeptMembers(leaves: seq<(Path, Node)>, p: string)
    ensures p in Kept(leaves) <==>
      exists x :: x in leaves && x.1.Regular? && Str(x.0) == p && !Excluded(p, DEFAULT_EXCLUSIONS)
  {
    if leaves != [] {
      assert leaves == [leaves[0]] + leaves[1..];
      KeptMembers(leaves[1..], p);
    }
  }

  lemma {:induction false} JoinBelow(a: Path, b: Path)
    requires a != [] && b != []
    ensures Join(a + b) == Join(a) + [SLASH] + Join(b)
  {
    if |a| == 1 {
      assert (a + b)[1..] == b;
    } else {
      assert (a + b)[1..] == a[1..] + b;
      JoinBelow(a[1..], b);
    }
  }

  lemma ExcludedBelow(t: Tree<Node>, here: Path, x: (Path, Node))
    requires here != [] && Excluded(Join(here), DEFAULT_EXCLUSIONS) && x in Leaves(t, here)
    ensures Excluded(Str(x.0), DEFAULT_EXCLUSIONS)
  {
    LeavesBelow(t, here, x);
    if |x.0| > |here| {
      var rest := x.0[|here|..];
      assert x.0 == here + rest;
      JoinBelow(here, rest);
      ExclusionInherited(Join(here), Join(rest), DEFAULT_EXCLUSIONS);
    } else {
      assert x.0 == here;
    }
  }

  /** Cutting off excluded subtrees gives what filtering a full traversal gives, in the same order. */
  lemma {:induction false} PruningSound(entries: seq<DirEntry<Node>>, at: Path)
    requires Walk(entries, at).Some?
    ensures Walk(entries, at).value == Kept(EntriesLeaves(entries, at))
    decreases entries
  {
    if entries != [] {
      var here, node := at + [entries[0].name], entries[0].node;
      PruningSound(entries[1..], at);
      KeptConcat(Leaves(node, here), EntriesLeaves(entries[1..], at));
      if Excluded(Join(here), DEFAULT_EXCLUSIONS) {
        forall x | x in Leaves(node, here) ensures Excluded(Str(x.0), DEFAULT_EXCLUSIONS) {
          ExcludedBelow(node, here, x);
        }
        KeptNone(Leaves(node, here));
      } else if node.Dir? {
        PruningSound(node.entries, here);
      } else {
        assert Leaves(node, here) == [(here, node.value)];
        assert Kept([(here, node.value)]) == if node.value.Regular? then [Join(here)] else [];
      }
    }
  }

  // ---- looking a path up and listing it are the same thing -------------------------------------

  lemma {:induction false} AtIsLeaf(t: Tree<Node>, at: Path, p: Path, v: Node)
    requires WellNamed(t)
    ensures At(t, p) == Some(Leaf(v)) <==> (at + p, v) in Leaves(t, at)
    decreases t, 1
  {
    if t.Leaf? {
      assert at + p == at <==> p == [];
    } else if p == [] {
      if (at + p, v) in Leaves(t, at) {
        EntriesLeavesBelow(t.entries, at, (at + p, v));
      }
    } else {
      FindIsLeaf(t.entries, at, p, v);
    }
  }

  lemma {:induction false} FindIsLeaf(entries: seq<DirEntry<Node>>, at: Path, p: Path, v: Node)
    requires EntriesNamed(entries) && p != []
    ensures (Find(entries, p[0]).Some? && At(Find(entries, p[0]).value, p[1..]) == Some(Leaf(v)))
       <==> (at + p, v) in EntriesLeaves(entries, at)
    decreases entries, 0
  {
    if entries != [] {
      var here := at + [entries[0].name];
      var x := (at + p, v);
      FindIsLeaf(entries[1..], at, p, v);
      assert (at + p)[|at|] == p[0];
      if entries[0].name == p[0] {
        assert here + p[1..] == at + p;
        AtIsLeaf(entries[0].node, here, p[1..], v);
        RestElsewhere(entries, at, x);
      } else {
        FirstElsewhere(entries[0].node, here, |at|, x);
      }
    }
  }

  lemma RestElsewhere(entries: seq<DirEntry<Node>>, at: Path, x: (Path, Node))
    requires entries != [] && EntriesNamed(entries) && |x.0| > |at| && x.0[|at|] == entries[0].name
    ensures x !in EntriesLeaves(entries[1..], at)
  {
    assert forall i | 0 <= i < |entries[1..]| :: entries[1..][i].name == entries[i + 1].name;
    if x in EntriesLeaves(entries[1..], at) {
      EntriesLeavesBelow(entries[1..], at, x);
    }
  }

  lemma FirstElsewhere(t: Tree<Node>, here: Path, n: nat, x: (Path, Node))
    requires n < |here| && n < |x.0| && x.0[n] != here[n]
    ensures x !in Leaves(t, here)
  {
    assert |here| <= |x.0| ==> x.0[..|here|][n] == x.0[n];
    if x in Leaves(t, here) {
      LeavesBelow(t, here, x);
    }
  }

  lemma NormalizeSame(value: string)
    ensures Normalize(value).Some? ==> Normalize(value).value == value
  {
    hide Split, Join, HasDoubleSlash;
  }

  /** A path has file metadata and is not excluded exactly when the walk finds it and its name is acceptable. */
  lemma FoundByWalk(sha: Bytes -> string, root: Tree<Node>, p: string)
    requires root.Dir? && WellNamed(root) && Walk(root.entries, []).Some?
    ensures FileMetadata(sha, root, p).Some? && !Excluded(p, DEFAULT_EXCLUSIONS) ==> p in Walk(root.entries, []).value
    ensures FileMetadata(sha, root, p).Some? ==> FileMetadata(sha, root, p).value.path == p
  {
    NormalizeSame(p);
    PruningSound(root.entries, []);
    KeptMembers(EntriesLeaves(root.entries, []), p);
    if FileMetadata(sha, root, p).Some? {
      var path := Split(p);
      var v := At(root, path).value.value;
      AtIsLeaf(root, [], path, v);
      assert [] + path == path;
      JoinSplit(p);
      assert (path, v) in EntriesLeaves(root.entries, []) && Str(path) == p;
    }
  }

  // ---- exactness -------------------------------------------------------------------------------

  ghost predicate Same(policy: ModePolicy, actual: BaselineFile, item: BaselineFile) {
    actual.path == item.path && ItemMatches(policy, actual, item)
  }

  /** Each listed file is one built file, up to the mode policy, and each built file is listed. */
  ghost predicate SameFiles(policy: ModePolicy, built: seq<BaselineFile>, listed: seq<BaselineFile>) {
    && (forall f | f in listed :: ValidMetadata(f) && exists g | g in built :: Same(policy, g, f))
    && (forall g | g in built :: exists f | f in listed :: Same(policy, g, f))
  }

  function SetOf(files: seq<BaselineFile>): set<BaselineFile> {
    set f | f in files
  }

  ghost predicate DistinctFiles(files: seq<BaselineFile>) {
    forall i, j | 0 <= i < j < |files| :: files[i].path != files[j].path
  }

  /** The paths the builder describes: found by the walk and allowed. */
  ghost predicate Describes(root: Tree<Node>, allowlist: seq<string>, p: string)
    requires root.Dir? && Walk(root.entries, []).Some?
  {
    p in Walk(root.entries, []).value && Allowed(p, allowlist)
  }

  lemma BuiltMembers(sha: Bytes -> string, root: Tree<Node>, allowlist: seq<string>)
    requires root.Dir? && ValidAllowlist(allowlist) && Walk(root.entries, []).Some?
    ensures Built(sha, root, allowlist).Some? <==>
      forall p | Describes(root, allowlist, p) :: FileMetadata(sha, root, p).Some?
    ensures Built(sha, root, allowlist).Some? ==>
      && (forall p | Describes(root, allowlist, p) ::
            FileMetadata(sha, root, p).value in Built(sha, root, allowlist).value)
      && (forall g | g in Built(sha, root, allowlist).value ::
            exists p :: Describes(root, allowlist, p) && FileMetadata(sha, root, p) == Some(g))
  {
    hide FileMetadata, Walk, ValidAllowlist, Allowed;
    var found := AllowedOf(Walk(root.entries, []).value, allowlist);
    var paths := Sort(Less, found);
    forall p ensures p in paths <==> Describes(root, allowlist, p) {
      assert p in paths <==> p in multiset(paths);
      assert p in found <==> p in multiset(found);
    }
    if Built(sha, root, allowlist).Some? {
      var built := Built(sha, root, allowlist).value;
      forall p | Describes(root, allowlist, p)
        ensures FileMetadata(sha, root, p).Some? && FileMetadata(sha, root, p).value in built
      {
        var i :| 0 <= i < |paths| && paths[i] == p;
        assert built[i] == FileMetadata(sha, root, p).value;
      }
      forall g | g in built ensures exists p :: Describes(root, allowlist, p) && FileMetadata(sha, root, p) == Some(g) {
        var i :| 0 <= i < |built| && built[i] == g;
        assert paths[i] in paths;
      }
    }
  }

  lemma HexAnyCase(s: string)
    requires IsHex64(s)
    ensures IsHex64AnyCase(s)
  {
  }

  lemma BuiltIsValid(sha: Bytes -> string, root: Tree<Node>, p: string)
    requires forall b :: IsHex64(sha(b))
    requires FileMetadata(sha, root, p).Some?
    ensures ValidMetadata(FileMetadata(sha, root, p).value)
  {
    hide IsHex64, IsHex64AnyCase, Normalize;
    var node := At(root, Split(Normalize(p).value)).value.value;
    HexAnyCase(sha(node.bytes));
  }

  lemma {:induction false} AcceptedFile(
      sha: Bytes -> string, rootPath: string, root: Tree<Node>, m: Manifest, policy: ModePolicy, i: nat)
    requires root.Dir? && WellNamed(root)
    requires Accepts(sha, rootPath, root, m, policy) && i < |m.files|
    ensures
      var f := m.files[i];
      && ValidMetadata(f) && Describes(root, m.allowlist, f.path)
      && FileMetadata(sha, root, f.path).Some? && Same(policy, FileMetadata(sha, root, f.path).value, f)
  {
    hide FileMetadata, Walk, ValidAllowlist, Normalize, Listed, Excluded, ValidMetadata, ItemMatches;
    assert ItemProblem(m, m.allowlist, m.files[i], {}) == None;
    FoundByWalk(sha, root, m.files[i].path);
  }

  lemma AcceptedPath(
      sha: Bytes -> string, rootPath: string, root: Tree<Node>, m: Manifest, policy: ModePolicy, p: string)
    returns (i: nat)
    requires root.Dir? && WellNamed(root)
    requires Accepts(sha, rootPath, root, m, policy) && Describes(root, m.allowlist, p)
    ensures i < |m.files| && m.files[i].path == p && FileMetadata(sha, root, p).Some?
    ensures Same(policy, FileMetadata(sha, root, p).value, m.files[i])
  {
    hide FileMetadata, Walk, ValidAllowlist, Normalize, Listed, Excluded, ValidMetadata, ItemMatches, ItemProblem;
    i :| 0 <= i < |m.files| && m.files[i].path == p;
    FoundByWalk(sha, root, p);
  }

  lemma AcceptedBasics(sha: Bytes -> string, rootPath: string, root: Tree<Node>, m: Manifest, policy: ModePolicy)
    requires root.Dir? && Accepts(sha, rootPath, root, m, policy)
    ensures ValidAllowlist(m.allowlist) && Walk(root.entries, []).Some? && DistinctFiles(m.files)
  {
    hide FileMetadata, Walk, ValidAllowlist, ItemMatches, ItemProblem;
  }

  /** An accepted manifest describes what the builder would describe. */
  lemma AcceptedIsBuilt(sha: Bytes -> string, rootPath: string, root: Tree<Node>, m: Manifest, policy: ModePolicy)
    requires root.Dir? && WellNamed(root)
    requires Accepts(sha, rootPath, root, m, policy)
    ensures Built(sha, root, m.allowlist).Some?
    ensures SameFiles(policy, Built(sha, root, m.allowlist).value, m.files) && DistinctFiles(m.files)
  {
    AcceptedBasics(sha, rootPath, root, m, policy);
    hide Accepts, FileMetadata, Walk, ValidAllowlist, Describes, ValidMetadata, Same, Built;
    BuiltMembers(sha, root, m.allowlist);
    forall p | Describes(root, m.allowlist, p) ensures FileMetadata(sha, root, p).Some? {
      var i := AcceptedPath(sha, rootPath, root, m, policy, p);
    }
    var built := Built(sha, root, m.allowlist).value;
    forall f | f in m.files ensures ValidMetadata(f) && exists g | g in built :: Same(policy, g, f) {
      var i :| 0 <= i < |m.files| && m.files[i] == f;
      AcceptedFile(sha, rootPath, root, m, policy, i);
    }
    forall g | g in built ensures exists f | f in m.files :: Same(policy, g, f) {
      BuiltFileListed(sha, rootPath, root, m, policy, g);
    }
  }

  lemma BuiltFileListed(
      sha: Bytes -> string, rootPath: string, root: Tree<Node>, m: Manifest, policy: ModePolicy, g: BaselineFile)
    requires root.Dir? && WellNamed(root)
    requires Accepts(sha, rootPath, root, m, policy)
    requires exists p :: Describes(root, m.allowlist, p) && FileMetadata(sha, root, p) == Some(g)
    ensures exists f | f in m.files :: Same(policy, g, f)
  {
    AcceptedBasics(sha, rootPath, root, m, policy);
    hide Accepts, FileMetadata, Walk, ValidAllowlist, Describes, ValidMetadata, Same, Built;
    var p :| Describes(root, m.allowlist, p) && FileMetadata(sha, root, p) == Some(g);
    var i := AcceptedPath(sha, rootPath, root, m, policy, p);
    assert m.files[i] in m.files;
  }

  lemma BuiltBasics(sha: Bytes -> string, root: Tree<Node>, allowlist: seq<string>)
    requires root.Dir? && Built(sha, root, allowlist).Some?
    ensures ValidAllowlist(allowlist) && Walk(root.entries, []).Some?
  {
    hide FileMetadata, Walk, ValidAllowlist;
  }

  lemma ListedFile(sha: Bytes -> string, rootPath: string, root: Tree<Node>, m: Manifest, policy: ModePolicy,
                   f: BaselineFile, g: BaselineFile, p: string)
    requires root.Dir? && WellNamed(root) && Walk(root.entries, []).Some?
    requires HeaderProblems(m, rootPath) == [] && ValidMetadata(f)
    requires Describes(root, m.allowlist, p) && FileMetadata(sha, root, p) == Some(g) && Same(policy, g, f)
    ensures ItemProblem(m, m.allowlist, f, {}) == None
    ensures FileMetadata(sha, root, f.path).Some? && ItemMatches(policy, FileMetadata(sha, root, f.path).value, f)
  {
    hide FileMetadata, Walk, ValidAllowlist, Normalize, Listed, Excluded, ValidMetadata, ItemMatches;
    FoundByWalk(sha, root, p);
    HasNormalPath(sha, root, p);
  }

  /** A manifest that describes what the builder would describe is accepted. */
  lemma BuiltIsAccepted(sha: Bytes -> string, rootPath: string, root: Tree<Node>, m: Manifest, policy: ModePolicy)
    requires root.Dir? && WellNamed(root)
    requires HeaderProblems(m, rootPath) == []
    requires Built(sha, root, m.allowlist).Some?
    requires SameFiles(policy, Built(sha, root, m.allowlist).value, m.files) && DistinctFiles(m.files)
    ensures Accepts(sha, rootPath, root, m, policy)
  {
    hide FileMetadata, Walk, Allowed, ItemProblem, ItemMatches, ValidMetadata, HeaderProblems, Built, ValidAllowlist,
      SameFiles, WellNamed;
    BuiltBasics(sha, root, m.allowlist);
    forall i | 0 <= i < |m.files|
      ensures ItemProblem(m, m.allowlist, m.files[i], {}) == None
      ensures FileMetadata(sha, root, m.files[i].path).Some?
      ensures ItemMatches(policy, FileMetadata(sha, root, m.files[i].path).value, m.files[i])
    {
      BuiltItem(sha, rootPath, root, m, policy, i);
    }
    forall p | p in Walk(root.entries, []).value && Allowed(p, m.allowlist)
      ensures exists i :: 0 <= i < |m.files| && m.files[i].path == p
    {
      var i := BuiltPath(sha, root, m, policy, p);
    }
  }

  lemma BuiltItem(sha: Bytes -> string, rootPath: string, root: Tree<Node>, m: Manifest, policy: ModePolicy, i: nat)
    requires root.Dir? && WellNamed(root) && HeaderProblems(m, rootPath) == [] && i < |m.files|
    requires Built(sha, root, m.allowlist).Some?
    requires SameFiles(policy, Built(sha, root, m.allowlist).value, m.files)
    ensures ItemProblem(m, m.allowlist, m.files[i], {}) == None
    ensures FileMetadata(sha, root, m.files[i].path).Some?
    ensures ItemMatches(policy, FileMetadata(sha, root, m.files[i].path).value, m.files[i])
  {
    hide FileMetadata, Walk, Allowed, ItemProblem, ItemMatches, ValidMetadata, HeaderProblems, Built, ValidAllowlist,
      WellNamed, Describes, Same;
    BuiltBasics(sha, root, m.allowlist);
    BuiltMembers(sha, root, m.allowlist);
    var f := m.files[i];
    assert f in m.files;
    var g :| g in Built(sha, root, m.allowlist).value && Same(policy, g, f);
    var p :| Describes(root, m.allowlist, p) && FileMetadata(sha, root, p) == Some(g);
    ListedFile(sha, rootPath, root, m, policy, f, g, p);
  }

  lemma BuiltPath(sha: Bytes -> string, root: Tree<Node>, m: Manifest, policy: ModePolicy, p: string) returns (i: nat)
    requires root.Dir? && WellNamed(root) && Walk(root.entries, []).Some?
    requires Built(sha, root, m.allowlist).Some?
    requires SameFiles(policy, Built(sha, root, m.allowlist).value, m.files)
    requires p in Walk(root.entries, []).value && Allowed(p, m.allowlist)
    ensures i < |m.files| && m.files[i].path == p
  {
    hide FileMetadata, Walk, Allowed, ValidMetadata, ValidAllowlist, Built, WellNamed, SameFiles, Excluded;
    BuiltBasics(sha, root, m.allowlist);
    assert Describes(root, m.allowlist, p);
    BuiltMembers(sha, root, m.allowlist);
    FoundByWalk(sha, root, p);
    i := ListedFor(policy, Built(sha, root, m.allowlist).value, m.files, FileMetadata(sha, root, p).value);
  }

  lemma ListedFor(policy: ModePolicy, built: seq<BaselineFile>, listed: seq<BaselineFile>, g: BaselineFile)
    returns (i: nat)
    requires SameFiles(policy, built, listed) && g in built
    ensures i < |listed| && listed[i].path == g.path
  {
    hide ValidMetadata, ItemMatches;
    var f :| f in listed && Same(policy, g, f);
    i :| 0 <= i < |listed| && listed[i] == f;
  }

  lemma HasNormalPath(sha: Bytes -> string, root: Tree<Node>, p: string)
    requires FileMetadata(sha, root, p).Some?
    ensures Normalize(p) == Some(p)
  {
    NormalizeSame(p);
    hide Normalize;
  }

  /**
   * Exactness. In exact mode the verifier says valid if and only if the header is in order, the builder
   * succeeds on the same tree and allowlist, no path is listed twice, and the listed files are, as a set,
   * the built ones.
   */
  lemma VerifierIsExact(sha: Bytes -> string, rootPath: string, root: Tree<Node>, m: Manifest)
    requires root.Dir? && WellNamed(root)
    requires forall b :: IsHex64(sha(b))
    ensures Accepts(sha, rootPath, root, m, Exact) <==>
      && HeaderProblems(m, rootPath) == []
      && Built(sha, root, m.allowlist).Some?
      && DistinctFiles(m.files)
      && SetOf(m.files) == SetOf(Built(sha, root, m.allowlist).value)
  {
    hide HeaderProblems, ValidMetadata, Walk, FileMetadata, ValidAllowlist, IsHex64, ItemsAcceptable;
    if Accepts(sha, rootPath, root, m, Exact) {
      AcceptedIsBuilt(sha, rootPath, root, m, Exact);
      ExactMeansEqual(Built(sha, root, m.allowlist).value, m.files);
    }
    if HeaderProblems(m, rootPath) == [] && Built(sha, root, m.allowlist).Some? && DistinctFiles(m.files)
       && SetOf(m.files) == SetOf(Built(sha, root, m.allowlist).value) {
      BuiltAllValid(sha, root, m.allowlist);
      EqualMeansExact(Built(sha, root, m.allowlist).value, m.files);
      BuiltIsAccepted(sha, rootPath, root, m, Exact);
    }
  }

  lemma ExactMeansEqual(built: seq<BaselineFile>, listed: seq<BaselineFile>)
    requires SameFiles(Exact, built, listed)
    ensures SetOf(listed) == SetOf(built)
  {
    hide ValidMetadata;
    assert forall g, f :: Same(Exact, g, f) ==> g == f;
  }

  lemma EqualMeansExact(built: seq<BaselineFile>, listed: seq<BaselineFile>)
    requires SetOf(listed) == SetOf(built)
    requires forall g | g in built :: ValidMetadata(g)
    ensures SameFiles(Exact, built, listed)
  {
    hide ValidMetadata;
    forall f | f in listed ensures ValidMetadata(f) && exists g | g in built :: Same(Exact, g, f) {
      assert f in SetOf(listed);
      assert Same(Exact, f, f);
    }
    forall g | g in built ensures exists f | f in listed :: Same(Exact, g, f) {
      assert g in SetOf(built);
      assert Same(Exact, g, g);
    }
  }

  lemma BuiltAllValid(sha: Bytes -> string, root: Tree<Node>, allowlist: seq<string>)
    requires root.Dir? && Built(sha, root, allowlist).Some?
    requires forall b :: IsHex64(sha(b))
    ensures forall g | g in Built(sha, root, allowlist).value :: ValidMetadata(g)
  {
    hide ValidMetadata, FileMetadata, ValidAllowlist, Walk, IsHex64;
    BuiltMembers(sha, root, allowlist);
    forall g | g in Built(sha, root, allowlist).value ensures ValidMetadata(g) {
      var p :| Describes(root, allowlist, p) && FileMetadata(sha, root, p) == Some(g);
      BuiltIsValid(sha, root, p);
    }
  }

  // ---- every change is caught ------------------------------------------------------------------

  lemma {:induction false} KeptOnce(leaves: seq<(Path, Node)>)
    requires DistinctPaths(leaves)
    requires forall x | x in leaves :: x.0 != [] && CleanPath(x.0)
    ensures NoDuplicates(Kept(leaves))
  {
    if leaves != [] {
      var rest := leaves[1..];
      assert forall x :: x in rest ==> x in leaves;
      assert forall i | 0 <= i < |rest| :: rest[i] == leaves[i + 1];
      KeptOnce(rest);
      var s := Str(leaves[0].0);
      KeptMembers(rest, s);
      if s in Kept(rest) {
        var x :| x in rest && x.1.Regular? && Str(x.0) == s && !Excluded(s, DEFAULT_EXCLUSIONS);
        var i :| 0 <= i < |rest| && rest[i] == x;
        assert leaves[0].0 != leaves[i + 1].0;
        JoinInjective(leaves[0].0, x.0);
      }
    }
  }

  lemma LeavesOfRoot(root: Tree<Node>, x: (Path, Node))
    requires root.Dir? && WellNamed(root) && x in EntriesLeaves(root.entries, [])
    ensures x.0 != [] && CleanPath(x.0) && Split(Join(x.0)) == x.0
  {
    EntriesLeavesBelow(root.entries, [], x);
    EntriesLeavesClean(root.entries, [], x);
    SplitJoin(x.0);
  }

  /** The walk reports each file once. */
  lemma WalkOnce(root: Tree<Node>)
    requires root.Dir? && WellNamed(root) && Walk(root.entries, []).Some?
    ensures NoDuplicates(Walk(root.entries, []).value)
  {
    var leaves := EntriesLeaves(root.entries, []);
    PruningSound(root.entries, []);
    EntriesLeafPathsDistinct(root.entries, []);
    forall x | x in leaves ensures x.0 != [] && CleanPath(x.0) {
      LeavesOfRoot(root, x);
    }
    KeptOnce(leaves);
  }

  /** The regular file a path leads to. */
  ghost predicate IsFile(root: Tree<Node>, p: string) {
    At(root, Split(p)).Some? && At(root, Split(p)).value.Leaf? && At(root, Split(p)).value.value.Regular?
  }

  lemma WalkFindsFiles(root: Tree<Node>, p: string)
    requires root.Dir? && WellNamed(root) && Walk(root.entries, []).Some? && p in Walk(root.entries, []).value
    ensures IsFile(root, p)
  {
    PruningSound(root.entries, []);
    KeptMembers(EntriesLeaves(root.entries, []), p);
    var x :| x in EntriesLeaves(root.entries, []) && x.1.Regular? && Str(x.0) == p;
    LeavesOfRoot(root, x);
    AtIsLeaf(root, [], x.0, x.1);
    assert [] + x.0 == x.0;
  }

  /** The allowed files of a tree with their contents and permission bits. */
  ghost function AllowedFiles(root: Tree<Node>, allowlist: seq<string>): map<string, (Bytes, int)>
    requires root.Dir? && WellNamed(root) && Walk(root.entries, []).Some?
  {
    map p | p in Walk(root.entries, []).value && Allowed(p, allowlist) ::
      WalkFindsFiles(root, p); var node := At(root, Split(p)).value.value; (node.bytes, node.mode % 512)
  }

  /** The hash does not collide, at any one path, on the contents that the two trees have there. */
  ghost predicate Tells(sha: Bytes -> string, a: Tree<Node>, b: Tree<Node>) {
    forall p | IsFile(a, p) && IsFile(b, p) ::
      var x, y := At(a, Split(p)).value.value.bytes, At(b, Split(p)).value.value.bytes;
      |x| == |y| && sha(x) == sha(y) ==> x == y
  }

  lemma {:induction false} MetadataTells(sha: Bytes -> string, a: Tree<Node>, b: Tree<Node>, p: string)
    requires Tells(sha, a, b) && IsFile(a, p) && IsFile(b, p)
    requires Normalize(p) == Some(p) && p != "."
    ensures
      var x, y := At(a, Split(p)).value.value, At(b, Split(p)).value.value;
      FileMetadata(sha, a, p) == FileMetadata(sha, b, p) <==> x.bytes == y.bytes && x.mode % 512 == y.mode % 512
    ensures FileMetadata(sha, a, p).Some? && FileMetadata(sha, b, p).Some?
  {
    hide Normalize;
  }

  lemma MetadataNamed(sha: Bytes -> string, root: Tree<Node>, p: string)
    requires FileMetadata(sha, root, p).Some?
    ensures Normalize(p) == Some(p) && p != "." && IsFile(root, p) && FileMetadata(sha, root, p).value.path == p
  {
    NormalizeSame(p);
    hide Normalize;
  }

  lemma BuiltDistinct(sha: Bytes -> string, root: Tree<Node>, allowlist: seq<string>)
    requires root.Dir? && WellNamed(root) && Built(sha, root, allowlist).Some?
    ensures DistinctFiles(Built(sha, root, allowlist).value)
  {
    hide FileMetadata, Walk, ValidAllowlist, Allowed;
    var walked := Walk(root.entries, []).value;
    WalkOnce(root);
    AllowedOnce(walked, allowlist);
    var found := AllowedOf(walked, allowlist);
    var paths := Sort(Less, found);
    NoDuplicatesPermutation(found, paths);
    var built := Built(sha, root, allowlist).value;
    forall i, j | 0 <= i < j < |built| ensures built[i].path != built[j].path {
      MetadataNamed(sha, root, paths[i]);
      MetadataNamed(sha, root, paths[j]);
    }
  }

  lemma {:induction false} AllowedOnce(paths: seq<string>, allowlist: seq<string>)
    requires NoDuplicates(paths)
    ensures NoDuplicates(AllowedOf(paths, allowlist))
  {
    hide Allowed;
    if paths != [] {
      assert forall i | 0 <= i < |paths[1..]| :: paths[1..][i] == paths[i + 1];
      AllowedOnce(paths[1..], allowlist);
      assert paths[0] !in paths[1..];
    }
  }

  /** Every file the first tree has, the second has with the same contents and bits. */
  lemma SameBuiltSameFiles(sha: Bytes -> string, a: Tree<Node>, b: Tree<Node>, allowlist: seq<string>, p: string)
    requires a.Dir? && WellNamed(a) && b.Dir? && WellNamed(b) && Tells(sha, a, b)
    requires Built(sha, a, allowlist).Some? && Built(sha, b, allowlist).Some?
    requires Walk(a.entries, []).Some? && Walk(b.entries, []).Some?
    requires SetOf(Built(sha, a, allowlist).value) <= SetOf(Built(sha, b, allowlist).value)
    requires p in AllowedFiles(a, allowlist)
    ensures p in AllowedFiles(b, allowlist) && AllowedFiles(a, allowlist)[p] == AllowedFiles(b, allowlist)[p]
  {
    BuiltBasics(sha, a, allowlist);
    hide Built, FileMetadata, Walk, Allowed, ValidAllowlist;
    BuiltMembers(sha, a, allowlist);
    BuiltMembers(sha, b, allowlist);
    assert Describes(a, allowlist, p);
    var g := FileMetadata(sha, a, p).value;
    assert g in SetOf(Built(sha, a, allowlist).value);
    var q :| Describes(b, allowlist, q) && FileMetadata(sha, b, q) == Some(g);
    MetadataNamed(sha, a, p);
    MetadataNamed(sha, b, q);
    MetadataTells(sha, a, b, p);
  }

  lemma SameFilesSameBuilt(sha: Bytes -> string, a: Tree<Node>, b: Tree<Node>, allowlist: seq<string>)
    requires a.Dir? && WellNamed(a) && b.Dir? && WellNamed(b) && Tells(sha, a, b)
    requires Built(sha, a, allowlist).Some?
    requires Walk(a.entries, []).Some? && Walk(b.entries, []).Some?
    requires AllowedFiles(a, allowlist) == AllowedFiles(b, allowlist)
    ensures Built(sha, b, allowlist).Some?
    ensures SetOf(Built(sha, a, allowlist).value) == SetOf(Built(sha, b, allowlist).value)
  {
    BuiltBasics(sha, a, allowlist);
    hide Built, FileMetadata, Walk, Allowed, ValidAllowlist;
    BuiltMembers(sha, a, allowlist);
    BuiltMembers(sha, b, allowlist);
    forall p ensures Describes(a, allowlist, p) <==> Describes(b, allowlist, p) {
      assert p in AllowedFiles(a, allowlist) <==> p in AllowedFiles(b, allowlist);
    }
    forall p | Describes(b, allowlist, p)
      ensures FileMetadata(sha, b, p).Some? && FileMetadata(sha, a, p) == FileMetadata(sha, b, p)
    {
      assert Describes(a, allowlist, p);
      MetadataNamed(sha, a, p);
      WalkFindsFiles(b, p);
      assert AllowedFiles(a, allowlist)[p] == AllowedFiles(b, allowlist)[p];
      MetadataTells(sha, a, b, p);
    }
  }

  /**
   * A manifest built from one tree is accepted for another, at the same root path, exactly when the
   * other tree's walk succeeds and it has the same allowed files with the same contents and permission
   * bits: every file added, removed, edited or given other bits is caught, and nothing else is. The hash
   * only has to tell apart contents of one size that the two trees have at one path.
   */
  lemma EveryChangeCaught(sha: Bytes -> string, rootPath: string, a: Tree<Node>, b: Tree<Node>, allowlist: seq<string>,
                          m: Manifest)
    requires a.Dir? && WellNamed(a) && b.Dir? && WellNamed(b)
    requires Tells(sha, a, b) && forall bytes :: IsHex64(sha(bytes))
    requires Built(sha, a, allowlist).Some? && Walk(a.entries, []).Some?
    requires m.files == Built(sha, a, allowlist).value && m.allowlist == allowlist && HeaderProblems(m, rootPath) == []
    ensures Accepts(sha, rootPath, b, m, Exact) <==>
      Walk(b.entries, []).Some? && AllowedFiles(b, allowlist) == AllowedFiles(a, allowlist)
  {
    assert Tells(sha, b, a);
    VerifierIsExact(sha, rootPath, b, m);
    BuiltDistinct(sha, a, allowlist);
    hide Built, FileMetadata, Walk, Allowed, ValidAllowlist, Accepts, HeaderProblems, IsHex64, Tells;
    if Accepts(sha, rootPath, b, m, Exact) {
      BuiltBasics(sha, b, allowlist);
      var x, y := AllowedFiles(a, allowlist), AllowedFiles(b, allowlist);
      forall p: string ensures SameAt(x, y, p) {
        if p in x { SameBuiltSameFiles(sha, a, b, allowlist, p); }
        if p in y { SameBuiltSameFiles(sha, b, a, allowlist, p); }
      }
      SameEverywhere(x, y);
    } else if Walk(b.entries, []).Some? && AllowedFiles(b, allowlist) == AllowedFiles(a, allowlist) {
      SameFilesSameBuilt(sha, a, b, allowlist);
    }
  }
}
