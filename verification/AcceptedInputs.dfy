/** Which run ids, paths and previews are accepted, in terms of the texts themselves. */
module AcceptedInputs {
  import opened Basics
  import opened SlashPaths
  import opened Drift
  import LockHandles
  import Materializer
  import MaterializationPlan
  import opened RuntimeModel
  import Runtime = RuntimeApply

  // ---- identifiers -----------------------------------------------------------------------------

  predicate IdText(s: string) {
    && s != ""
    && forall c | c in s ::
         'A' <= c <= 'Z' || 'a' <= c <= 'z' || '0' <= c <= '9' || c == '.' || c == '_' || c == '-'
  }

  lemma IdTextAt(s: string, k: nat)
    requires k < |s|
    ensures IdText(s[k..]) <==> forall i | k <= i < |s| :: LockHandles.IsIdChar(s[i])
  {
    forall c | c in s[k..] ensures exists i :: k <= i < |s| && s[i] == c {
      var i :| 0 <= i < |s[k..]| && s[k..][i] == c;
      assert s[k + i] == c;
    }
    forall i | k <= i < |s| ensures s[i] in s[k..] { assert s[k..][i - k] == s[i]; }
  }

  /** The three kinds of identifiers: a prefix, and at least one of the letters, digits and marks allowed. */
  lemma IdsExactly(s: string)
    ensures LockHandles.ValidProfile(s) <==> exists t :: s == "prf_" + t && IdText(t)
    ensures Materializer.ValidRunId(s) <==> exists t :: s == "run_" + t && IdText(t)
    ensures MaterializationPlan.ValidSnapshot(s) <==> exists t :: s == "snap_" + t && IdText(t)
  {
    hide IdText, LockHandles.IsIdChar;
    if |s| > 4 { IdTextAt(s, 4); }
    if |s| > 5 { IdTextAt(s, 5); }
    forall t ensures !IdText("") && ("prf_" + t)[4..] == t && ("run_" + t)[4..] == t && ("snap_" + t)[5..] == t {
      assert !IdText("") by { NoIdText(); }
    }
    assert |s| > 4 ==> s == s[..4] + s[4..];
    assert |s| > 5 ==> s == s[..5] + s[5..];
  }

  lemma NoIdText()
    ensures !IdText("")
  {
  }

  // ---- relative paths --------------------------------------------------------------------------

  /** The names along a path, none of them empty, a dot or two dots. */
  predicate PlainNames(names: seq<string>) {
    names != [] && forall n | n in names :: n != "" && n != "." && n != ".." && '/' !in n
  }

  /** The path is plain names joined by slashes. */
  ghost predicate Named(path: string) {
    exists names :: PlainNames(names) && path == Join(names)
  }

  lemma NamesOf(path: string)
    ensures Named(path) <==> forall i | 0 <= i < |Split(path)| :: Split(path)[i] !in ["", ".", ".."]
  {
    hide Split, Join;
    var parts := Split(path);
    JoinSplit(path);
    SplitSlashFree(path);
    if forall i | 0 <= i < |parts| :: parts[i] !in ["", ".", ".."] {
      assert PlainNames(parts) && path == Join(parts);
    }
    if names :| PlainNames(names) && path == Join(names) {
      assert forall i | 0 <= i < |names| :: names[i] in names;
      SplitJoin(names);
    }
  }

  lemma NamedStart(path: string)
    requires Named(path)
    ensures path != "" && path[0] != '/'
  {
    var names :| PlainNames(names) && path == Join(names);
    assert names[0] in names;
    assert names[0][0] in names[0];
  }

  /** The runtime adapters take the plain names joined by slashes, without NUL and backslash. */
  lemma RuntimePathExactly(path: string)
    ensures Runtime.SafeRelative(path) <==>
      '\0' !in path && '\\' !in path && Named(path)
  {
    hide Split, Named;
    NamesOf(path);
    if Named(path) {
      NamedStart(path);
      assert forall i | 0 <= i < |Split(path)| :: Split(path)[i] !in ["", ".", ".."];
      assert Runtime.SafeRelative(path) <==> '\0' !in path && '\\' !in path;
    } else {
      assert !Runtime.SafeRelative(path);
    }
  }

  /** A letter, a colon and a slash. */
  predicate DriveStart(path: string) {
    |path| >= 3 && ('A' <= path[0] <= 'Z' || 'a' <= path[0] <= 'z') && path[1] == ':' && path[2] == '/'
  }

  /** The materializer lets one slash follow them, and NUL stand in them, but no drive letter begin them. */
  lemma MaterializerPathExactly(path: string)
    ensures Materializer.SafeRelative(path) <==>
      && '\\' !in path && !DriveStart(path)
      && (Named(path) || exists front :: Named(front) && path == front + "/")
  {
    hide Split, Named;
    var body := WithoutTrailingSlash(path);
    NamesOf(body);
    assert '\\' !in path && |path| >= 3 ==> path[2] != '\\';
    assert path == body || path == body + "/";
    if Named(path) {
      NamedStart(path);
      NamedEnd(path);
    }
    if front :| Named(front) && path == front + "/" {
      NamedStart(front);
      NamedEnd(front);
      assert body == front;
    }
  }

  lemma NamedEnd(path: string)
    requires Named(path)
    ensures path != "" && path[|path| - 1] != '/'
  {
    var names :| PlainNames(names) && path == Join(names);
    JoinedEnd(names);
  }

  lemma {:induction false} JoinedEnd(names: seq<string>)
    requires PlainNames(names)
    ensures Join(names) != "" && Join(names)[|Join(names)| - 1] != '/'
  {
    assert names[0] in names;
    if |names| == 1 {
      assert names[0][|names[0]| - 1] in names[0];
    } else {
      assert forall n | n in names[1..] :: n in names;
      JoinedEnd(names[1..]);
    }
  }

  // ---- a plan of the materializer --------------------------------------------------------------

  /** What a plan has to be for it to be built. */
  lemma PlanExactly(plan: ManifestV1)
    ensures
      MaterializationPlan.HeaderFine(plan) && (forall f | f in plan.files :: MaterializationPlan.FileFine(f)) <==>
        && (exists t :: plan.profileId == "prf_" + t && IdText(t))
        && (exists t :: plan.snapshotId == "snap_" + t && IdText(t))
        && (plan.harness == "hermes" || plan.harness == "openclaw") && plan.targetRoot != ""
        && forall f | f in plan.files :: Digest(f.sha256) && |f.bytes| > 0 && Materializer.SafeRelative(f.relativePath)
  {
    hide IdText, Digest, IsHex64, Materializer.SafeRelative, LockHandles.ValidProfile,
      MaterializationPlan.ValidSnapshot;
    IdsExactly(plan.profileId);
    IdsExactly(plan.snapshotId);
    forall f | f in plan.files ensures IsHex64(f.sha256) <==> Digest(f.sha256) { DigestExactly(f.sha256); }
    assert MaterializationPlan.HARNESSES[0] == "hermes" && MaterializationPlan.HARNESSES[1] == "openclaw";
  }

  // ---- an apply of the runtime adapters --------------------------------------------------------

  predicate Digest(s: string) {
    |s| == 64 && forall c | c in s :: '0' <= c <= '9' || 'a' <= c <= 'f'
  }

  lemma DigestExactly(s: string)
    ensures IsHex64(s) <==> Digest(s)
  {
    assert forall i | 0 <= i < |s| :: s[i] in s;
  }

  /** Where paths do not repeat, the first file at a path is any file at it. */
  lemma RecordsAny(plan: Plan, path: string, digest: string)
    requires Distinct(plan)
    ensures Runtime.Records(plan, path, digest) <==> exists f :: f in plan && f.path == path && f.sha == digest
  {
    if f :| f in plan && f.path == path && f.sha == digest {
      var i :| 0 <= i < |plan| && plan[i] == f;
      assert forall j | 0 <= j < i :: plan[j].path != path;
    }
  }

  /**
   * What it takes for an apply that no call fails to succeed: a reviewed digest that is the preview's, the
   * preview's target, files with safe distinct paths that are what they say, canonical input files as the
   * preview recorded them, a registry that can be read and a run id that is new everywhere.
   */
  lemma {:induction false} AcceptedExactly(
      sha: Bytes -> string, root: string, canonical: map<string, Bytes>, input: Runtime.ApplyInput, runId: string,
      s: State)
    ensures
      var p := input.preview;
      (&& Runtime.Revalidates(sha, root, input) && Runtime.Rescans(sha, canonical, input)
       && CanCommit(s, Runtime.JobOf(input, runId))) <==>
        && Digest(input.reviewedDigest) && p.digest == input.reviewedDigest
        && p.targetDir == root && input.targetDir == root
        && (forall i, j | 0 <= i < j < |p.files| :: p.files[i].path != p.files[j].path)
        && (forall f | f in p.files ::
              && '\0' !in f.path && '\\' !in f.path && Named(f.path)
              && Digest(f.sha) && sha(f.bytes) == f.sha && f.mode <= 0x1FF)
        && p.mcpEntry in canonical && |canonical[p.mcpEntry]| > 0
        && p.userFile in canonical && p.soulFile in canonical
        && (exists f :: f in p.files && f.path == "USER.md" && f.sha == sha(canonical[p.userFile]))
        && (exists f :: f in p.files && f.path == "SOUL.md" && f.sha == sha(canonical[p.soulFile]))
        && s.registry != Corrupt && runId != "" && runId !in s.backups
        && forall r | r in RunsIn(s.registry) :: r.runId != runId
  {
    hide Runtime.Records, Runtime.SafeRelative, Named, IsHex64, Digest;
    var p := input.preview;
    DigestExactly(input.reviewedDigest);
    forall f | f in p.files
      ensures IsHex64(f.sha) <==> Digest(f.sha)
      ensures Runtime.SafeRelative(f.path) <==>
        '\0' !in f.path && '\\' !in f.path && Named(f.path)
    {
      DigestExactly(f.sha);
      RuntimePathExactly(f.path);
    }
    if Distinct(p.files) && p.userFile in canonical && p.soulFile in canonical {
      RecordsAny(p.files, "USER.md", sha(canonical[p.userFile]));
      RecordsAny(p.files, "SOUL.md", sha(canonical[p.soulFile]));
    }
  }
}
