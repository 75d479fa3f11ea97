/** Building a materialization plan: what is refused, and what a plan that was built can rely on. */
module MaterializationPlan {
  import opened Basics
  import opened Drift
  import opened LockHandles
  import opened Materializer

  datatype Problem =
    | BadProfile | BadSnapshot | BadHarness | NoTargetRoot
    | BadPath(file: nat) | BadHash(file: nat) | NoBytes(file: nat)

  datatype BuildResult = Built(plan: ManifestV1) | Rejected(problem: Problem)

  const HARNESSES: seq<string> := ["hermes", "openclaw"]

  predicate ValidSnapshot(s: string) {
    |s| > 5 && s[..5] == "snap_" && forall i | 5 <= i < |s| :: IsIdChar(s[i])
  }

  predicate FileFine(f: ManifestFile) {
    SafeRelative(f.relativePath) && IsHex64(f.sha256) && f.bytes != []
  }

  predicate HeaderFine(plan: ManifestV1) {
    ValidProfile(plan.profileId) && ValidSnapshot(plan.snapshotId) && plan.harness in HARNESSES && plan.targetRoot != ""
  }

  /** Which of a file's checks fails, the first that does. */
  ghost predicate Names(p: Problem, f: ManifestFile, i: nat) {
    match p
    case BadPath(k) => k == i && !SafeRelative(f.relativePath)
    case BadHash(k) => k == i && SafeRelative(f.relativePath) && !IsHex64(f.sha256)
    case NoBytes(k) => k == i && SafeRelative(f.relativePath) && IsHex64(f.sha256) && f.bytes == []
    case _ => false
  }

  /** Build the proposed plan, or name the first thing wrong with it. */
  method BuildMaterializationPlan(proposed: ManifestV1, runId: string) returns (r: BuildResult)
    ensures r.Built? <==> HeaderFine(proposed) && forall f | f in proposed.files :: FileFine(f)
    ensures r.Built? ==> r.plan == proposed.(runId := Some(runId))
    ensures r.Rejected? && HeaderFine(proposed) ==>
      exists i :: 0 <= i < |proposed.files| && Names(r.problem, proposed.files[i], i)
               && forall j | 0 <= j < i :: FileFine(proposed.files[j])
  {
    hide SafeRelative, IsHex64, ValidProfile, ValidSnapshot;
    if !ValidProfile(proposed.profileId) { return Rejected(BadProfile); }
    if !ValidSnapshot(proposed.snapshotId) { return Rejected(BadSnapshot); }
    if proposed.harness !in HARNESSES { return Rejected(BadHarness); }
    if proposed.targetRoot == "" { return Rejected(NoTargetRoot); }
    for i := 0 to |proposed.files|
      invariant forall j | 0 <= j < i :: FileFine(proposed.files[j])
    {
      var f := proposed.files[i];
      assert f in proposed.files;
      if !SafeRelative(f.relativePath) { return Rejected(BadPath(i)); }
      if !IsHex64(f.sha256) { return Rejected(BadHash(i)); }
      if |f.bytes| == 0 { return Rejected(NoBytes(i)); }
    }
    r := Built(proposed.(runId := Some(runId)));
  }

  /**
   * For a plan that was built, the digest of its manifest on disk is the plan's digest exactly when every file
   * of the plan is there with its planned bytes; and an apply finds nothing wrong with its files.
   */
  lemma BuiltPlanShowsDrift(c: Codec, plan: ManifestV1, live: Content)
    requires SoundHash(c, plan, Some(Canonical(c, plan)), live) && OrdersPaths(c, plan.files)
    requires forall f | f in plan.files :: FileFine(f)
    ensures ObservedDigest(c, Some(Canonical(c, plan)), live) == DigestPlan(c, plan) <==>
      forall f | f in plan.files :: f.relativePath in live && live[f.relativePath] == f.bytes
    ensures ValidFiles(plan.files)
  {
    hide SafeRelative, IsHex64, OrdersPaths, SoundHash, ObservedDigest, Canonical, DigestPlan;
    DriftExact(c, plan, live);
    MissingIsDrift(plan, live);
  }
}
