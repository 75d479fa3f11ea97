/**
 * The transactional apply of the runtime adapters, as pure state.
 *
 * A target directory is split into the regular files outside `.pah/` (the live files),
 * one backup directory and one staging directory per run, the run registry and the lock.
 */
module RuntimeModel {
  import opened Basics

  /** Permission bits of a file. */
  type Mode = nat

  const OWNER_ONLY: Mode := 384 // 0o600
  const MAX_SAFE_MODE: Mode := 511 // 0o777

  datatype File = File(bytes: Bytes, mode: Mode)
  type Files = map<string, File>

  datatype PlanFile = PlanFile(path: string, sha: string, mode: Mode, bytes: Bytes)
  type Plan = seq<PlanFile>

  datatype BackupEntry = BackupEntry(path: string, existed: bool, mode: Mode, sha: string)
  datatype Written = Written(path: string, mode: Mode, sha: string)
  datatype Run = Run(runId: string, planDigest: string, reason: string, backup: seq<BackupEntry>, files: seq<Written>)

  /** The registry file: absent, not readable as `{ runs: [...] }`, or a list of runs. */
  datatype RegistryFile = Missing | Corrupt | Runs(runs: seq<Run>)

  function Paths(plan: Plan): set<string> {
    set f | f in plan :: f.path
  }

  predicate Distinct(plan: Plan) {
    forall i, j | 0 <= i < j < |plan| :: plan[i].path != plan[j].path
  }

  // ---- what an apply is meant to do ------------------------------------------------------------

  /** The files a plan puts in place. */
  function Planned(plan: Plan): Files {
    if plan == [] then map[]
    else
      var last := plan[|plan| - 1];
      Planned(plan[..|plan| - 1])[last.path := File(last.bytes, last.mode)]
  }

  function Applied(live: Files, plan: Plan): Files {
    live + Planned(plan)
  }

  /** What the backup step records about one plan file. */
  function EntryFor(sha: Bytes -> string, live: Files, f: PlanFile): BackupEntry {
    if f.path in live then BackupEntry(f.path, true, live[f.path].mode, sha(live[f.path].bytes))
    else BackupEntry(f.path, false, f.mode, "")
  }

  function Entries(sha: Bytes -> string, live: Files, plan: Plan): (r: seq<BackupEntry>)
    ensures |r| == |plan|
  {
    seq(|plan|, i requires 0 <= i < |plan| => EntryFor(sha, live, plan[i]))
  }

  /** The backup directory: a private copy of every plan file that exists. */
  function BackupOf(live: Files, plan: Plan): Files {
    map p | p in Paths(plan) && p in live :: File(live[p].bytes, OWNER_ONLY)
  }

  /** How many of the plan's files exist. */
  function Existing(live: Files, plan: Plan): (n: nat)
    ensures n <= |plan|
  {
    if plan == [] then 0
    else Existing(live, plan[..|plan| - 1]) + (if plan[|plan| - 1].path in live then 1 else 0)
  }

  lemma ExistingStep(live: Files, plan: Plan, i: nat)
    requires i < |plan|
    ensures Existing(live, plan[..i + 1]) == Existing(live, plan[..i]) + (if plan[i].path in live then 1 else 0)
  {
    assert plan[..i + 1][..i] == plan[..i];
  }

  function WrittenBy(plan: Plan): (r: seq<Written>)
    ensures |r| == |plan|
  {
    seq(|plan|, i requires 0 <= i < |plan| => Written(plan[i].path, plan[i].mode, plan[i].sha))
  }

  function RunOf(sha: Bytes -> string, live: Files, plan: Plan, runId: string, digest: string, reason: string): Run {
    Run(runId, digest, reason, Entries(sha, live, plan), WrittenBy(plan))
  }

  /** What staging leaves behind; a path named twice holds what was staged last. */
  function StagedOf(plan: Plan): Files {
    if plan == [] then map[]
    else
      var last := plan[|plan| - 1];
      StagedOf(plan[..|plan| - 1])[last.path := File(last.bytes, OWNER_ONLY)]
  }

  function RunsIn(registry: RegistryFile): seq<Run> {
    if registry.Runs? then registry.runs else []
  }

  predicate HasRun(registry: RegistryFile, runId: string) {
    exists r | r in RunsIn(registry) :: r.runId == runId
  }

  /** The first run with this id, as the registry lookup finds it. */
  function FindRun(runs: seq<Run>, runId: string): (r: Option<Run>)
    ensures r.Some? <==> exists x | x in runs :: x.runId == runId
    ensures r.Some? ==> r.value in runs && r.value.runId == runId
  {
    if runs == [] then None
    else if runs[0].runId == runId then Some(runs[0])
    else FindRun(runs[1..], runId)
  }

  function Append(registry: RegistryFile, run: Run): RegistryFile {
    Runs(RunsIn(registry) + [run])
  }

  /** What one requested apply carries besides the target. */
  datatype Job = Job(plan: Plan, runId: string, digest: string, reason: string)

  /** The durable state of a target: live files, registry, one backup directory per run. */
  datatype State = State(live: Files, registry: RegistryFile, backups: map<string, Files>)

  /** A successful apply, as one step. */
  function Commit(sha: Bytes -> string, s: State, job: Job): State {
    State(Applied(s.live, job.plan),
          Append(s.registry, RunOf(sha, s.live, job.plan, job.runId, job.digest, job.reason)),
          s.backups[job.runId := BackupOf(s.live, job.plan)])
  }

  /** Nothing but a fault can stop this job on this state. */
  ghost predicate CanCommit(s: State, job: Job) {
    && Distinct(job.plan)
    && s.registry != Corrupt && job.runId != "" && !HasRun(s.registry, job.runId)
    && job.runId !in s.backups
  }

  // ---- putting things back ---------------------------------------------------------------------

  /** Undo one recorded file: give back bytes and mode, or remove what was not there. */
  function RestoreEntry(live: Files, e: BackupEntry, backup: Files): Files {
    if !e.existed then live - {e.path}
    else if e.path in backup then live[e.path := File(backup[e.path].bytes, e.mode)]
    else live
  }

  function Restore(live: Files, entries: seq<BackupEntry>, backup: Files): Files {
    if entries == [] then live
    else
      var n := |entries| - 1;
      RestoreEntry(Restore(live, entries[..n], backup), entries[n], backup)
  }

  lemma RestoreNothing(live: Files, backup: Files)
    ensures Restore(live, [], backup) == live
  {
  }

  lemma RestoreNext(live: Files, entries: seq<BackupEntry>, i: nat, backup: Files)
    requires i < |entries|
    ensures Restore(live, entries[..i + 1], backup)
         == RestoreEntry(Restore(live, entries[..i], backup), entries[i], backup)
  {
    assert entries[..i + 1][..i] == entries[..i];
  }

  function EntryPaths(entries: seq<BackupEntry>): set<string> {
    set e | e in entries :: e.path
  }

  /** A change at a recorded path keeps the agreement elsewhere. */
  lemma EntryUpdate(now: Files, next: Files, before: Files, entries: seq<BackupEntry>, i: nat)
    requires i < |entries| && AgreeOutside(now, before, EntryPaths(entries))
    requires now - {entries[i].path} == next - {entries[i].path}
    ensures AgreeOutside(next, before, EntryPaths(entries))
  {
    assert entries[i].path in EntryPaths(entries);
    KeyUpdate(now, next, before, EntryPaths(entries), entries[i].path);
  }

  // ---- facts about these functions -------------------------------------------------------------

  lemma {:induction false} PlannedPaths(plan: Plan)
    ensures Planned(plan).Keys == Paths(plan)
  {
    if plan != [] {
      var n := |plan| - 1;
      PlannedPaths(plan[..n]);
      assert plan == plan[..n] + [plan[n]];
      assert Paths(plan) == Paths(plan[..n]) + {plan[n].path};
    }
  }

  /** A plan that names no path twice puts exactly its own bytes and modes in place. */
  lemma {:induction false} PlannedAt(plan: Plan, i: nat)
    requires Distinct(plan) && i < |plan|
    ensures plan[i].path in Planned(plan) && Planned(plan)[plan[i].path] == File(plan[i].bytes, plan[i].mode)
  {
    var n := |plan| - 1;
    if i < n {
      assert plan[..n][i] == plan[i];
      PlannedAt(plan[..n], i);
    }
  }

  lemma {:induction false} StagedPaths(plan: Plan)
    ensures StagedOf(plan).Keys == Paths(plan)
  {
    if plan != [] {
      var n := |plan| - 1;
      StagedPaths(plan[..n]);
      assert plan == plan[..n] + [plan[n]];
      assert Paths(plan) == Paths(plan[..n]) + {plan[n].path};
    }
  }

  lemma {:induction false} StagedAt(plan: Plan, i: nat)
    requires Distinct(plan) && i < |plan|
    ensures plan[i].path in StagedOf(plan) && StagedOf(plan)[plan[i].path] == File(plan[i].bytes, OWNER_ONLY)
  {
    var n := |plan| - 1;
    if i < n {
      assert plan[..n][i] == plan[i];
      StagedAt(plan[..n], i);
    }
  }

  /**
   * The registry entry of a run says of each file of the plan, in the plan's order, whether it was there, with
   * which mode and which digest, and then what was written.
   */
  lemma {:induction false} RunExactly(
      sha: Bytes -> string, live: Files, plan: Plan, runId: string, digest: string, reason: string, run: Run)
    ensures run == RunOf(sha, live, plan, runId, digest, reason) <==>
      && run.runId == runId && run.planDigest == digest && run.reason == reason
      && |run.backup| == |plan| && |run.files| == |plan|
      && (forall i | 0 <= i < |plan| && plan[i].path in live ::
            var was := live[plan[i].path];
            run.backup[i] == BackupEntry(plan[i].path, true, was.mode, sha(was.bytes)))
      && (forall i | 0 <= i < |plan| && plan[i].path !in live ::
            run.backup[i] == BackupEntry(plan[i].path, false, plan[i].mode, ""))
      && (forall i | 0 <= i < |plan| :: run.files[i] == Written(plan[i].path, plan[i].mode, plan[i].sha))
  {
    var want := RunOf(sha, live, plan, runId, digest, reason);
    if |run.backup| == |plan| && forall i | 0 <= i < |plan| :: run.backup[i] == EntryFor(sha, live, plan[i]) {
      assert run.backup == want.backup;
    }
    if |run.files| == |plan| && forall i | 0 <= i < |plan| :: run.files[i] == want.files[i] {
      assert run.files == want.files;
    }
  }

  /**
   * A committed job leaves the planned bytes and modes at its paths and everything else alone, adds one entry at
   * the end of the registry, and keeps a private copy of exactly those of its files that were there.
   */
  lemma {:induction false} CommitExactly(sha: Bytes -> string, s: State, job: Job)
    requires Distinct(job.plan)
    ensures
      var after := Commit(sha, s, job);
      && (forall f | f in job.plan :: f.path in after.live && after.live[f.path] == File(f.bytes, f.mode))
      && AgreeOutside(after.live, s.live, Paths(job.plan))
      && after.registry.Runs? && |after.registry.runs| == |RunsIn(s.registry)| + 1
      && after.registry.runs[..|RunsIn(s.registry)|] == RunsIn(s.registry)
      && after.registry.runs[|RunsIn(s.registry)|]
         == RunOf(sha, s.live, job.plan, job.runId, job.digest, job.reason)
      && job.runId in after.backups && AgreeOutside(after.backups, s.backups, {job.runId})
      && (forall p :: p in after.backups[job.runId] <==> p in s.live && p in Paths(job.plan))
      && (forall p | p in after.backups[job.runId] ::
            p in s.live && after.backups[job.runId][p] == File(s.live[p].bytes, OWNER_ONLY))
  {
    hide Distinct, RunOf, Planned;
    PlannedPaths(job.plan);
    forall f | f in job.plan ensures f.path in Planned(job.plan) && Planned(job.plan)[f.path] == File(f.bytes, f.mode) {
      var i :| 0 <= i < |job.plan| && job.plan[i] == f;
      PlannedAt(job.plan, i);
    }
  }

  // One more plan file, in each of the functions above.

  lemma PathsStep(plan: Plan, i: nat)
    requires i < |plan|
    ensures Paths(plan[..i + 1]) == Paths(plan[..i]) + {plan[i].path}
    ensures plan[i].path in Paths(plan) && Paths(plan[..i]) <= Paths(plan)
  {
    assert plan[..i + 1] == plan[..i] + [plan[i]];
  }

  lemma NothingYet(live: Files)
    ensures BackupOf(live, []) == map[] && StagedOf([]) == map[] && Applied(live, []) == live
    ensures Paths([]) == {} && Distinct([])
  {
  }

  lemma EntriesStep(sha: Bytes -> string, live: Files, plan: Plan, i: nat)
    requires i < |plan|
    ensures Entries(sha, live, plan)[..i + 1] == Entries(sha, live, plan)[..i] + [EntryFor(sha, live, plan[i])]
  {
  }

  lemma BackupStep(live: Files, plan: Plan, i: nat)
    requires i < |plan|
    ensures BackupOf(live, plan[..i + 1]) ==
            if plan[i].path in live
            then BackupOf(live, plan[..i])[plan[i].path := File(live[plan[i].path].bytes, OWNER_ONLY)]
            else BackupOf(live, plan[..i])
  {
    PathsStep(plan, i);
  }

  lemma StagedStep(plan: Plan, i: nat)
    requires i < |plan|
    ensures StagedOf(plan[..i + 1]) == StagedOf(plan[..i])[plan[i].path := File(plan[i].bytes, OWNER_ONLY)]
  {
    assert plan[..i + 1][..i] == plan[..i];
  }

  lemma AgreeUpdate(now: Files, before: Files, plan: Plan, i: nat, x: File)
    requires i < |plan| && AgreeOutside(now, before, Paths(plan))
    ensures AgreeOutside(now[plan[i].path := x], before, Paths(plan))
  {
    assert plan[i] in plan && plan[i].path in Paths(plan);
    KeyUpdate(now, now[plan[i].path := x], before, Paths(plan), plan[i].path);
  }

  /**
   * The rename step: after i renames of a plan the staged files not yet moved are those whose path has
   * not come up, so the next path is still there exactly when it has not come up before.
   */
  lemma {:induction false} RenameStep(before: Files, now: Files, plan: Plan, i: nat, left: Files)
    requires i < |plan| && Distinct(plan[..i])
    requires left == StagedOf(plan) - Paths(plan[..i])
    requires Distinct(plan) ==> now == Applied(before, plan[..i])
    ensures
      var f := plan[i];
      && (f.path in left <==> Distinct(plan[..i + 1]))
      && (f.path !in left ==> !Distinct(plan))
      && left - {f.path} == StagedOf(plan) - Paths(plan[..i + 1])
      && (Distinct(plan) ==>
            && f.path in left
            && now[f.path := left[f.path].(mode := f.mode)] == Applied(before, plan[..i + 1]))
  {
    hide Distinct, Paths, Applied, StagedOf;
    StagedLeft(plan, i, left);
    if Distinct(plan) { RenamedLeft(before, now, plan, i, left); }
  }

  lemma StagedLeft(plan: Plan, i: nat, left: Files)
    requires i < |plan| && Distinct(plan[..i])
    requires left == StagedOf(plan) - Paths(plan[..i])
    ensures plan[i].path in left <==> Distinct(plan[..i + 1])
    ensures plan[i].path !in left ==> !Distinct(plan)
    ensures left - {plan[i].path} == StagedOf(plan) - Paths(plan[..i + 1])
  {
    hide Distinct, Paths, StagedOf;
    PathsStep(plan, i);
    DistinctStep(plan, i);
    StagedPaths(plan);
  }

  lemma RenamedLeft(before: Files, now: Files, plan: Plan, i: nat, left: Files)
    requires i < |plan| && Distinct(plan) && Distinct(plan[..i])
    requires left == StagedOf(plan) - Paths(plan[..i])
    requires now == Applied(before, plan[..i])
    ensures plan[i].path in left
    ensures now[plan[i].path := left[plan[i].path].(mode := plan[i].mode)] == Applied(before, plan[..i + 1])
  {
    StagedLeft(plan, i, left);
    StagedAt(plan, i);
    AppliedStep(before, plan, i);
    hide Distinct, Paths, Applied, StagedOf;
  }

  lemma AppliedStep(live: Files, plan: Plan, i: nat)
    requires i < |plan|
    ensures Applied(live, plan[..i + 1]) == Applied(live, plan[..i])[plan[i].path := File(plan[i].bytes, plan[i].mode)]
  {
    assert plan[..i + 1][..i] == plan[..i];
  }

  lemma DistinctStep(plan: Plan, i: nat)
    requires i < |plan| && Distinct(plan[..i])
    ensures Distinct(plan[..i + 1]) <==> plan[i].path !in Paths(plan[..i])
    ensures plan[i].path in Paths(plan[..i]) ==> !Distinct(plan)
  {
    assert plan[..i + 1] == plan[..i] + [plan[i]];
    forall j | 0 <= j < i ensures plan[j].path in Paths(plan[..i]) {
      assert plan[j] in plan[..i];
    }
    if plan[i].path in Paths(plan[..i]) {
      var f :| f in plan[..i] && f.path == plan[i].path;
      var j :| 0 <= j < i && plan[..i][j] == f;
      assert plan[..i + 1][j].path == plan[..i + 1][i].path;
    }
  }

  /** Every entry that says the file existed has its bytes in the backup. */
  lemma BackupHolds(sha: Bytes -> string, before: Files, plan: Plan)
    ensures forall e | e in Entries(sha, before, plan) && e.existed :: e.path in BackupOf(before, plan)
  {
    forall e | e in Entries(sha, before, plan) && e.existed ensures e.path in BackupOf(before, plan) {
      var i :| 0 <= i < |plan| && Entries(sha, before, plan)[i] == e;
      assert plan[i] in plan && plan[i].path in Paths(plan);
    }
  }

  /** Only the plan's paths change. */
  lemma AppliedElsewhere(live: Files, plan: Plan)
    ensures AgreeOutside(Applied(live, plan), live, Paths(plan))
  {
    PlannedPaths(plan);
  }

  /** After restoring a prefix of the entries, that prefix's paths hold what they held before the apply. */
  lemma {:induction false} RestorePrefix(sha: Bytes -> string, before: Files, now: Files, plan: Plan, k: nat)
    requires k <= |plan|
    ensures
      var r := Restore(now, Entries(sha, before, plan)[..k], BackupOf(before, plan));
      && (forall i | 0 <= i < k :: SameAt(r, before, plan[i].path))
      && (forall p | p !in Paths(plan[..k]) :: SameAt(r, now, p))
  {
    if k > 0 {
      var all := Entries(sha, before, plan);
      var backup := BackupOf(before, plan);
      assert all[..k][..k - 1] == all[..k - 1];
      assert plan[..k] == plan[..k - 1] + [plan[k - 1]];
      assert plan[k - 1].path in Paths(plan[..k]);
      assert Paths(plan[..k - 1]) <= Paths(plan[..k]);
      RestorePrefix(sha, before, now, plan, k - 1);
      assert plan[k - 1] in plan && plan[k - 1].path in Paths(plan);
    }
  }

  /** Restoring a run puts back its own paths and touches nothing else. */
  lemma {:induction false} RestoreLocal(sha: Bytes -> string, before: Files, now: Files, plan: Plan)
    ensures
      var r := Restore(now, Entries(sha, before, plan), BackupOf(before, plan));
      && AgreeOutside(r, now, Paths(plan))
      && forall p | p in Paths(plan) :: SameAt(r, before, p)
  {
    var r := Restore(now, Entries(sha, before, plan), BackupOf(before, plan));
    RestorePrefix(sha, before, now, plan, |plan|);
    assert Entries(sha, before, plan)[..|plan|] == Entries(sha, before, plan) && plan[..|plan|] == plan;
    forall p | p in Paths(plan) ensures SameAt(r, before, p) {
      var f :| f in plan && f.path == p;
      var i :| 0 <= i < |plan| && plan[i] == f;
    }
  }

  /**
   * Restoring from the record and backup an apply took gives back the files as they were,
   * whatever has happened to the plan's paths since.
   */
  lemma RestoreExact(sha: Bytes -> string, before: Files, now: Files, plan: Plan)
    requires AgreeOutside(now, before, Paths(plan))
    ensures Restore(now, Entries(sha, before, plan), BackupOf(before, plan)) == before
  {
    var r := Restore(now, Entries(sha, before, plan), BackupOf(before, plan));
    RestoreLocal(sha, before, now, plan);
    forall p: string ensures SameAt(r, before, p) {
      if p !in Paths(plan) {
        assert SameAt(r, now, p) && SameAt(now, before, p);
      }
    }
    SameEverywhere(r, before);
  }

  // ---- rolling a recorded run back -------------------------------------------------------------

  /** Write some of the backed-up files again: bytes from the backup, mode kept where the file exists. */
  function RewriteSome(live: Files, backup: Files, names: set<string>, createMode: Mode): Files {
    live + map p | p in names && p in backup :: File(backup[p].bytes, if p in live then live[p].mode else createMode)
  }

  function Rewrite(live: Files, backup: Files, createMode: Mode): Files {
    RewriteSome(live, backup, backup.Keys, createMode)
  }

  lemma {:induction false} RewriteStep(live: Files, backup: Files, names: set<string>, p: string, createMode: Mode)
    requires p !in names && p in backup
    ensures
      var now := RewriteSome(live, backup, names, createMode);
      RewriteSome(live, backup, names + {p}, createMode)
        == now[p := File(backup[p].bytes, if p in now then now[p].mode else createMode)]
  {
  }

  /** A rewritten file has the backup's bytes and keeps its mode; one that was not there gets that of a new file. */
  lemma {:induction false} RewriteExactly(live: Files, backup: Files, createMode: Mode, p: string)
    ensures
      var after := Rewrite(live, backup, createMode);
      if p !in backup then SameAt(after, live, p)
      else
        && p in after && after[p].bytes == backup[p].bytes
        && after[p].mode == if p in live then live[p].mode else createMode
  {
  }

  lemma RewriteElsewhere(live: Files, backup: Files, names: set<string>, createMode: Mode)
    ensures AgreeOutside(RewriteSome(live, backup, names, createMode), live, backup.Keys)
    ensures RewriteSome(live, backup, {}, createMode) == live
  {
  }

  lemma AgreeTwice(a: Files, b: Files, c: Files, s: set<string>, t: set<string>)
    requires AgreeOutside(a, b, s) && AgreeOutside(b, c, t)
    ensures AgreeOutside(a, c, t + s)
  {
    forall p | p !in t + s ensures SameAt(a, c, p) {
      assert SameAt(a, b, p) && SameAt(b, c, p);
    }
  }

  /** The two passes of a rollback: first the recorded entries, then whatever the backup directory holds. */
  function Rollback(live: Files, entries: seq<BackupEntry>, backup: Files, createMode: Mode): Files {
    Rewrite(Restore(live, entries, backup), backup, createMode)
  }

  /** With the record an apply wrote, the second pass changes nothing. */
  lemma {:induction false} SecondPassIdle(sha: Bytes -> string, before: Files, now: Files, plan: Plan, createMode: Mode)
    ensures
      var entries, backup := Entries(sha, before, plan), BackupOf(before, plan);
      Rollback(now, entries, backup, createMode) == Restore(now, entries, backup)
  {
    var entries, backup := Entries(sha, before, plan), BackupOf(before, plan);
    var r := Restore(now, entries, backup);
    RestoreLocal(sha, before, now, plan);
    forall p: string ensures SameAt(Rewrite(r, backup, createMode), r, p) {
      if p in backup {
        assert SameAt(r, before, p);
      }
    }
    SameEverywhere(Rewrite(r, backup, createMode), r);
  }

  /** Whatever the recorded list says, a rollback gives every backed-up file its bytes back. */
  lemma BackedUpBytesReturn(live: Files, entries: seq<BackupEntry>, backup: Files, createMode: Mode, p: string)
    requires p in backup
    ensures p in Rollback(live, entries, backup, createMode)
    ensures Rollback(live, entries, backup, createMode)[p].bytes == backup[p].bytes
  {
  }
}
