/** `applyPlan` and `rollbackPlan` over a target directory whose file-system calls may fail at any point. */
module RuntimeApply {
  import opened Basics
  import opened Faults
  import opened SlashPaths
  import opened RuntimeModel
  import opened RollbackReport
  import opened BackupWalk
  import opened Listings
  import opened Sorting
  import opened Trees

  /** The part of a preview that the apply reads. */
  datatype Preview = Preview(
    digest: string, targetDir: string, mcpEntry: string, userFile: string, soulFile: string, files: Plan)

  datatype ApplyInput = ApplyInput(preview: Preview, targetDir: string, reviewedDigest: string, reason: string)

  function JobOf(input: ApplyInput, runId: string): Job {
    Job(input.preview.files, runId, input.reviewedDigest, input.reason)
  }

  /** Where a refused or failed apply stopped. */
  datatype Failure =
    | Rejected          // before the lock: the input, or a canonical input file, is not acceptable
    | LockRefused       // another apply holds the lock, or it could not be created
    | LockLeaked        // the lock file was created but could not be filled in
    | RolledBack        // inside the transaction, before the registry rename
    | AfterCommit       // the registry rename happened, the chmod after it failed

  datatype ApplyResult = Done(runId: string) | Threw(failure: Failure)

  /** What one apply may do to the durable state and the lock of a target, whatever fails on the way. */
  ghost predicate Outcome(
      sha: Bytes -> string, before: State, wasLocked: bool, job: Job, r: ApplyResult, after: State, locked: bool)
  {
    && (r.Done? ==> r.runId == job.runId && CanCommit(before, job) && after == Commit(sha, before, job))
    && (r.Threw? ==> after.live == before.live)
    && (r.Threw? ==>
          after.backups
          == if r.failure in {RolledBack, AfterCommit} then before.backups - {job.runId} else before.backups)
    && after.registry
       == (if r.Done? || r.failure == AfterCommit then Commit(sha, before, job).registry else before.registry)
    && (r == Threw(AfterCommit) ==> !HasRun(before.registry, job.runId))
    && locked == (wasLocked || r == Threw(LockLeaked))
  }

  /** How far the transaction got before the catch block sees it. */
  datatype Progress = Finished | Failed | CommittedThenFailed

  predicate SafeRelative(path: string) {
    && path != "" && '\0' !in path && '\\' !in path && path[0] != '/'
    && forall i | 0 <= i < |Split(path)| :: Split(path)[i] !in ["", ".", ".."]
  }

  /** Every plan file's digest is that of its bytes, and its mode has no special bits. */
  predicate ValidFiles(sha: Bytes -> string, plan: Plan) {
    forall f | f in plan :: sha(f.bytes) == f.sha && f.mode <= MAX_SAFE_MODE
  }

  predicate WellFormedFiles(plan: Plan) {
    forall f | f in plan :: SafeRelative(f.path) && IsHex64(f.sha)
  }

  predicate Revalidates(sha: Bytes -> string, root: string, input: ApplyInput) {
    && IsHex64(input.reviewedDigest)
    && input.preview.digest == input.reviewedDigest
    && input.preview.targetDir == root
    && WellFormedFiles(input.preview.files)
    && ValidFiles(sha, input.preview.files)
  }

  /** The first plan file at a path records the digest of these bytes. */
  predicate Records(plan: Plan, path: string, digest: string) {
    exists i | 0 <= i < |plan| ::
      plan[i].path == path && plan[i].sha == digest && forall j | 0 <= j < i :: plan[j].path != path
  }

  /** The canonical input files are still there and the plan still carries USER.md and SOUL.md as they are. */
  predicate Rescans(sha: Bytes -> string, canonical: map<string, Bytes>, input: ApplyInput) {
    var p := input.preview;
    && p.mcpEntry in canonical && p.userFile in canonical && p.soulFile in canonical
    && p.targetDir == input.targetDir
    && Records(p.files, "USER.md", sha(canonical[p.userFile]))
    && Records(p.files, "SOUL.md", sha(canonical[p.soulFile]))
    && canonical[p.mcpEntry] != []
  }

  datatype RollbackResult = Restored(restored: seq<string>, removed: seq<string>) | NotRestored

  /** Every recorded file that existed is still in the backup directory. */
  predicate BackupComplete(entries: seq<BackupEntry>, backup: Files) {
    forall e | e in entries && e.existed :: e.path in backup
  }

  class Target {
    const root: string
    const sha: Bytes -> string
    /** Call number n to the file system fails. */
    const faults: nat -> bool
    /** Permission bits a newly created file gets. */
    const createMode: Mode

    /** File-system calls made so far, and how many of them failed. */
    var clock: nat
    ghost var failures: nat
    var live: Files
    var backups: map<string, Files>
    var staging: map<string, Files>
    var registry: RegistryFile
    var registryTmp: bool
    var locked: bool

    constructor (root: string, sha: Bytes -> string, faults: nat -> bool, createMode: Mode, live: Files)
      ensures this.root == root && this.sha == sha && this.faults == faults && this.createMode == createMode
      ensures this.live == live && backups == map[] && staging == map[] && registry == Missing && !locked
    {
      this.root, this.sha, this.faults, this.createMode := root, sha, faults, createMode;
      this.live, backups, staging, registry := live, map[], map[], Missing;
      clock, registryTmp, locked := 0, false, false;
      failures := 0;
    }

    ghost function Snapshot(): State
      reads this
    {
      State(live, registry, backups)
    }

    /** Calls since then are counted: failures went up exactly if one of them failed. */
    ghost predicate Counts(since: nat, counted: nat)
      reads `clock, `failures
    {
      clock >= since && failures >= counted && (failures == counted <==> Clear(faults, since, clock))
    }

    /** This many calls have been made since then, or fewer by what stopped early. */
    ghost predicate Costs(since: nat, ok: bool, calls: nat)
      reads `clock
    {
      clock <= since + calls && (ok ==> clock == since + calls)
    }

    /** A run of file-system calls that change nothing modelled here; stops at the first failure. */
    method Io(calls: nat) returns (ok: bool)
      modifies `clock, `failures
      ensures ok <==> failures == old(failures)
      ensures Counts(old(clock), old(failures)) && Costs(old(clock), ok, calls)
    {
      ok := true;
      for i := 0 to calls
        invariant clock == old(clock) + i && ok && failures == old(failures)
        invariant forall c | old(clock) <= c < clock :: !faults(c)
      {
        ok := !faults(clock);
        clock := clock + 1;
        if !ok {
          failures := failures + 1;
          return;
        }
      }
    }

    // ---- lock ----------------------------------------------------------------------------------

    /** Create-if-absent, then fill in; a failure while filling in leaves the lock file behind. */
    method AcquireLock() returns (r: Option<Failure>)
      modifies `clock, `failures, `locked
      ensures Counts(old(clock), old(failures))
      ensures r == None ==> !old(locked) && locked
      ensures r == Some(LockRefused) ==> locked == old(locked)
      ensures r == Some(LockLeaked) ==> !old(locked) && locked
      ensures r in {None, Some(LockRefused), Some(LockLeaked)}
      ensures failures == old(failures) ==> (r == None <==> !old(locked))
      ensures Costs(old(clock), r in {None, Some(LockLeaked)}, 3)
      ensures r == None <==> !old(locked) && Clear(faults, old(clock), old(clock) + 3)
      ensures r == Some(LockLeaked) <==>
        !old(locked) && Clear(faults, old(clock), old(clock) + 2) && faults(old(clock) + 2)
    {
      var ok := Io(1);
      if !ok { return Some(LockRefused); }
      if locked { return Some(LockRefused); }
      ok := Io(1);
      if !ok { return Some(LockRefused); }
      locked := true;
      ok := Io(1);
      if !ok { return Some(LockLeaked); }
      return None;
    }

    // ---- the steps inside the transaction ------------------------------------------------------

    method BackupFiles(plan: Plan, runId: string) returns (record: Option<seq<BackupEntry>>)
      requires runId in backups && backups[runId] == map[]
      modifies `clock, `failures, `backups
      ensures Counts(old(clock), old(failures))
      ensures runId in backups && backups == old(backups)[runId := backups[runId]]
      ensures record.Some? ==> record.value == Entries(sha, live, plan) && backups[runId] == BackupOf(live, plan)
      ensures record.Some? <==> failures == old(failures)
      ensures Costs(old(clock), record.Some?, 5 * Existing(live, plan))
    {
      hide Clear;
      ClearJoins(faults);
      hide Entries, BackupOf, Paths, Existing;
      assert Existing(live, plan[..0]) == 0 by { ExistingNone(live, plan); }
      NothingYet(live);
      assert plan[..0] == [];
      var entries: seq<BackupEntry> := [];
      var dir: Files := map[];
      for i := 0 to |plan|
        invariant failures == old(failures) && Counts(old(clock), old(failures))
        invariant clock == old(clock) + 5 * Existing(live, plan[..i])
        invariant backups == old(backups)[runId := dir]
        invariant entries == Entries(sha, live, plan)[..i]
        invariant dir == BackupOf(live, plan[..i])
      {
        var f := plan[i];
        EntriesStep(sha, live, plan, i);
        ExistingStep(live, plan, i);
        ExistingMost(live, plan, i + 1);
        BackupStep(live, plan, i);
        if f.path !in live {
          entries := entries + [BackupEntry(f.path, false, f.mode, "")];
          continue;
        }
        var ok := Io(4); // lstat, mkdir, read, write
        if !ok { return None; }
        backups := backups[runId := dir[f.path := File(live[f.path].bytes, createMode)]];
        ok := Io(1);
        if !ok { return None; }
        dir := dir[f.path := File(live[f.path].bytes, OWNER_ONLY)];
        backups := backups[runId := dir];
        entries := entries + [BackupEntry(f.path, true, live[f.path].mode, sha(live[f.path].bytes))];
      }
      assert plan[..|plan|] == plan;
      return Some(entries);
    }

    method StageOne(f: PlanFile, runId: string) returns (ok: bool)
      requires runId in staging && sha(f.bytes) == f.sha
      modifies `clock, `failures, `staging
      ensures Counts(old(clock), old(failures)) && Costs(old(clock), ok, 4)
      ensures runId in staging && staging == old(staging)[runId := staging[runId]]
      ensures ok ==> staging[runId] == old(staging[runId])[f.path := File(f.bytes, OWNER_ONLY)]
      ensures ok <==> failures == old(failures)
    {
      var dir := staging[runId];
      ok := Io(2); // mkdir, write
      if !ok { return; }
      staging := staging[runId := dir[f.path := File(f.bytes, createMode)]];
      ok := Io(1);
      if !ok { return; }
      dir := dir[f.path := File(f.bytes, OWNER_ONLY)];
      staging := staging[runId := dir];
      ok := Io(1); // read back
      if !ok { return; }
      if sha(dir[f.path].bytes) != f.sha { return false; }
    }

    method StageFiles(plan: Plan, runId: string) returns (ok: bool)
      requires runId in staging && staging[runId] == map[]
      requires ValidFiles(sha, plan)
      modifies `clock, `failures, `staging
      ensures Counts(old(clock), old(failures))
      ensures runId in staging && staging == old(staging)[runId := staging[runId]]
      ensures ok ==> staging[runId] == StagedOf(plan)
      ensures ok <==> failures == old(failures)
      ensures Costs(old(clock), ok, 4 * |plan|)
    {
      hide StagedOf, ValidFiles;
      NothingYet(live);
      assert plan[..0] == [];
      ghost var dir: Files := map[];
      for i := 0 to |plan|
        invariant failures == old(failures) && Counts(old(clock), old(failures)) && clock == old(clock) + 4 * i
        invariant staging == old(staging)[runId := dir]
        invariant dir == StagedOf(plan[..i])
      {
        StagedStep(plan, i);
        ValidOne(plan, i);
        ok := StageOne(plan[i], runId);
        if !ok { return; }
        dir := dir[plan[i].path := File(plan[i].bytes, OWNER_ONLY)];
      }
      assert plan[..|plan|] == plan;
      ok := true;
    }

    lemma ValidOne(plan: Plan, i: nat)
      requires i < |plan| && ValidFiles(sha, plan)
      ensures sha(plan[i].bytes) == plan[i].sha
    {
      assert plan[i] in plan;
    }

    /** A second rename of one path finds nothing staged there any more and fails. */
    method RenameFiles(plan: Plan, runId: string) returns (written: Option<seq<Written>>)
      requires runId in staging && staging[runId] == StagedOf(plan)
      modifies `clock, `failures, `staging, `live
      ensures Counts(old(clock), old(failures))
      ensures AgreeOutside(live, old(live), Paths(plan))
      ensures runId in staging && staging == old(staging)[runId := staging[runId]]
      ensures written.Some? ==>
        && Distinct(plan) && written.value == WrittenBy(plan)
        && live == Applied(old(live), plan) && staging[runId] == map[]
      ensures written.Some? <==> failures == old(failures) && Distinct(plan)
      ensures Costs(old(clock), written.Some?, 4 * |plan|)
    {
      hide Distinct, Paths, Applied, Planned, StagedOf, AgreeOutside, WrittenBy;
      ghost var before := live;
      AgreeSelf(live, Paths(plan));
      NothingYet(live);
      assert plan[..0] == [];
      var left := staging[runId];
      var done: seq<Written> := [];
      for i := 0 to |plan|
        invariant failures == old(failures) && Counts(old(clock), old(failures)) && clock == old(clock) + 4 * i
        invariant done == WrittenBy(plan)[..i]
        invariant Distinct(plan[..i])
        invariant staging == old(staging)[runId := left]
        invariant left == StagedOf(plan) - Paths(plan[..i])
        invariant AgreeOutside(live, before, Paths(plan))
        invariant Distinct(plan) ==> live == Applied(before, plan[..i])
      {
        var f := plan[i];
        RenameStep(before, live, plan, i, left);
        WrittenStep(plan, i);
        var ok := Io(2); // mkdir, lstat
        if !ok { return None; }
        if f.path !in left { return None; }
        ok := Io(1);
        if !ok { return None; }
        AgreeUpdate(live, before, plan, i, left[f.path]);
        live := live[f.path := left[f.path]];
        left := left - {f.path};
        staging := staging[runId := left];
        ok := Io(1);
        if !ok { return None; }
        AgreeUpdate(live, before, plan, i, live[f.path].(mode := f.mode));
        live := live[f.path := live[f.path].(mode := f.mode)];
        done := done + [Written(f.path, f.mode, f.sha)];
      }
      assert plan[..|plan|] == plan;
      RenameEnd(plan);
      return Some(done);
    }

    lemma ExistingNone(live: Files, plan: Plan)
      ensures Existing(live, plan[..0]) == 0
    {
    }

    lemma {:induction false} ExistingMost(live: Files, plan: Plan, i: nat)
      requires i <= |plan|
      ensures Existing(live, plan[..i]) <= Existing(live, plan)
      decreases |plan| - i
    {
      if i < |plan| {
        ExistingStep(live, plan, i);
        ExistingMost(live, plan, i + 1);
      } else {
        assert plan[..i] == plan;
      }
    }

    lemma WrittenStep(plan: Plan, i: nat)
      requires i < |plan|
      ensures WrittenBy(plan)[..i + 1] == WrittenBy(plan)[..i] + [Written(plan[i].path, plan[i].mode, plan[i].sha)]
    {
    }

    lemma RenameEnd(plan: Plan)
      ensures StagedOf(plan) - Paths(plan) == map[]
    {
      StagedPaths(plan);
    }

    method VerifyAfterApply(plan: Plan, ghost before: Files) returns (ok: bool)
      requires Distinct(plan) && ValidFiles(sha, plan) && live == Applied(before, plan)
      modifies `clock, `failures
      ensures Counts(old(clock), old(failures))
      ensures ok <==> failures == old(failures)
      ensures Costs(old(clock), ok, 2 * |plan|)
    {
      for i := 0 to |plan|
        invariant failures == old(failures) && Counts(old(clock), old(failures)) && clock == old(clock) + 2 * i
      {
        var f := plan[i];
        PlannedAt(plan, i);
        if f.path !in live { return false; }
        ok := Io(2); // lstat, read
        if !ok { return; }
        if sha(live[f.path].bytes) != f.sha { return false; }
        if live[f.path].mode > MAX_SAFE_MODE { return false; }
      }
      ok := true;
    }

    /** The calls up to and including the rename of the new registry over the old. */
    static function RegistryCalls(registry: RegistryFile, tmp: bool): nat {
      6 + (if registry != Missing then 1 else 0) + (if tmp then 1 else 0)
    }

    /** The runs on record, unless the registry cannot be read or is corrupt. */
    method ReadRegistry() returns (runs: Option<seq<Run>>)
      modifies `clock, `failures
      ensures Counts(old(clock), old(failures))
      ensures Costs(old(clock), runs.Some?, if registry != Missing then 2 else 1)
      ensures runs.Some? ==> runs.value == RunsIn(registry)
      ensures runs.Some? <==> failures == old(failures) && registry != Corrupt
    {
      var ok := Io(1);
      if !ok { return None; }
      if registry == Missing { return Some([]); }
      ok := Io(1);
      if !ok || registry == Corrupt { return None; }
      return Some(registry.runs);
    }

    /** Write the runs to a new file, and rename it over the registry. */
    method ReplaceRegistry(runs: seq<Run>) returns (ok: bool)
      modifies `clock, `failures, `registry, `registryTmp
      ensures Counts(old(clock), old(failures))
      ensures Costs(old(clock), ok, if old(registryTmp) then 6 else 5)
      ensures ok <==> failures == old(failures)
      ensures registry == if ok then Runs(runs) else old(registry)
    {
      if registryTmp {
        ok := Io(1);
        if !ok { return; }
        registryTmp := false;
      }
      ok := Io(1);
      if !ok { return; }
      registryTmp := true;
      ok := Io(3); // write, close, chmod
      if !ok { return; }
      ok := Io(1);
      if !ok { return; }
      registryTmp, registry := false, Runs(runs);
    }

    method AtomicWriteRegistry(run: Run) returns (p: Progress)
      modifies `clock, `failures, `registry, `registryTmp
      ensures Counts(old(clock), old(failures))
      ensures p == Failed ==> registry == old(registry)
      ensures p != Failed ==>
        && old(registry) != Corrupt && run.runId != "" && !HasRun(old(registry), run.runId)
        && registry == Append(old(registry), run)
      ensures failures == old(failures) ==>
        (p == Finished <==> old(registry) != Corrupt && run.runId != "" && !HasRun(old(registry), run.runId))
      ensures p == Finished ==> failures == old(failures)
      ensures p == CommittedThenFailed ==> failures > old(failures)
      ensures Costs(old(clock), p != Failed, RegistryCalls(old(registry), old(registryTmp)) + 1)
      ensures p == Failed ==> clock <= old(clock) + RegistryCalls(old(registry), old(registryTmp))
      ensures p == CommittedThenFailed ==> Clear(faults, old(clock), clock - 1) && faults(clock - 1)
    {
      var runs := ReadRegistry();
      if runs == None { return Failed; }
      if run.runId == "" { return Failed; }
      if exists r | r in runs.value :: r.runId == run.runId { return Failed; }
      var ok := ReplaceRegistry(runs.value + [run]);
      if !ok { return Failed; }
      ok := Io(1);
      return if ok then Finished else CommittedThenFailed;
    }

    /** The recovery: give back what the backup recorded. Its own calls do not fail. */
    method RestoreFromBackup(entries: seq<BackupEntry>, runId: string)
      requires runId in backups
      requires forall e | e in entries && e.existed :: e.path in backups[runId]
      modifies `live
      ensures live == Restore(old(live), entries, backups[runId])
    {
      for i := 0 to |entries|
        invariant live == Restore(old(live), entries[..i], backups[runId])
      {
        var e := entries[i];
        assert entries[..i + 1][..i] == entries[..i];
        if e.existed {
          live := live[e.path := File(backups[runId][e.path].bytes, e.mode)];
        } else if e.path in live {
          live := live - {e.path};
        }
      }
      assert entries[..|entries|] == entries;
    }

    // ---- the transaction -----------------------------------------------------------------------

    /** Make the run's two directories, refusing if either is there already. */
    method Prepare(runId: string) returns (ok: bool)
      modifies `clock, `failures, `backups, `staging
      ensures Counts(old(clock), old(failures))
      ensures Elsewhere(runId, old(backups), backups) && Elsewhere(runId, old(staging), staging)
      ensures ok ==> runId !in old(staging) && runId !in old(backups)
      ensures ok ==> staging == old(staging)[runId := map[]] && backups == old(backups)[runId := map[]]
      ensures ok <==> failures == old(failures) && runId !in old(staging) && runId !in old(backups)
      ensures Costs(old(clock), ok, 7)
    {
      if runId in staging || runId in backups { return false; }
      ok := Io(5); // symlink guards, mkdir of the two roots, mkdir of the run's staging directory
      if !ok { return; }
      staging := staging[runId := map[]];
      ok := Io(1);
      if !ok { return; }
      backups := backups[runId := map[]];
      ok := Io(1); // final-target symlink guard
    }

    /** Everything before the first staged file: the run's directories and the backup. */
    method Preserve(plan: Plan, runId: string) returns (record: Option<seq<BackupEntry>>)
      modifies `clock, `failures, `backups, `staging
      ensures Counts(old(clock), old(failures))
      ensures Elsewhere(runId, old(backups), backups) && Elsewhere(runId, old(staging), staging)
      ensures record.Some? ==>
        && record.value == Entries(sha, live, plan)
        && runId in backups && backups[runId] == BackupOf(live, plan) && staging == old(staging)[runId := map[]]
      ensures record.Some? <==> failures == old(failures) && runId !in old(staging) && runId !in old(backups)
      ensures Costs(old(clock), record.Some?, 7 + 5 * Existing(live, plan))
    {
      hide Entries, BackupOf, Existing;
      var ok := Prepare(runId);
      if !ok { return None; }
      record := BackupFiles(plan, runId);
    }

    /** Stage, rename, verify, record: everything after the backup is complete. */
    method Install(plan: Plan, runId: string, digest: string, reason: string, record: seq<BackupEntry>)
      returns (p: Progress)
      requires ValidFiles(sha, plan)
      requires record == Entries(sha, live, plan)
      requires runId in staging && staging[runId] == map[]
      modifies `clock, `failures, `live, `staging, `registry, `registryTmp
      ensures Counts(old(clock), old(failures))
      ensures runId in staging && staging == old(staging)[runId := staging[runId]]
      ensures AgreeOutside(live, old(live), Paths(plan))
      ensures registry == if p == Failed then old(registry)
                          else Append(old(registry), RunOf(sha, old(live), plan, runId, digest, reason))
      ensures p != Failed ==>
        && Distinct(plan) && old(registry) != Corrupt && runId != "" && !HasRun(old(registry), runId)
        && live == Applied(old(live), plan) && staging[runId] == map[]
      ensures failures == old(failures) ==>
        && p != CommittedThenFailed
        && (p == Finished <==>
              Distinct(plan) && old(registry) != Corrupt && runId != "" && !HasRun(old(registry), runId))
      ensures p == Finished ==> failures == old(failures)
      ensures
        var calls := 10 * |plan| + RegistryCalls(old(registry), old(registryTmp));
        && Costs(old(clock), p != Failed, calls + 1) && (p == Failed ==> clock <= old(clock) + calls)
        && (p == CommittedThenFailed ==> Clear(faults, old(clock), clock - 1) && faults(clock - 1))
    {
      hide Clear;
      ClearJoins(faults);
      hide Entries, Applied, Planned, Paths, Distinct, StagedOf, ValidFiles, WrittenBy, AgreeOutside, HasRun;
      AgreeSelf(live, Paths(plan));
      var ok := StageFiles(plan, runId);
      if !ok { return Failed; }
      var written := RenameFiles(plan, runId);
      if written == None { return Failed; }
      ok := VerifyAfterApply(plan, old(live));
      if !ok { return Failed; }
      p := AtomicWriteRegistry(Run(runId, digest, reason, record, written.value));
    }

    /** The calls of the try block up to and including the rename of the registry; the chmod is the next one. */
    static function CallsBeforeChmod(live: Files, plan: Plan, registry: RegistryFile, tmp: bool): nat {
      7 + 5 * Existing(live, plan) + 10 * |plan| + RegistryCalls(registry, tmp)
    }

    /** The body of the try block: what it returns, and the backup record if one was completed. */
    method Attempt(plan: Plan, runId: string, digest: string, reason: string)
      returns (p: Progress, record: Option<seq<BackupEntry>>)
      requires ValidFiles(sha, plan)
      modifies `clock, `failures, `live, `backups, `staging, `registry, `registryTmp
      ensures Counts(old(clock), old(failures))
      ensures Elsewhere(runId, old(backups), backups) && Elsewhere(runId, old(staging), staging)
      ensures AgreeOutside(live, old(live), Paths(plan))
      ensures record == None ==> live == old(live)
      ensures record.Some? ==>
        && record.value == Entries(sha, old(live), plan)
        && runId in backups && backups[runId] == BackupOf(old(live), plan)
      ensures registry == if p == Failed then old(registry)
                          else Append(old(registry), RunOf(sha, old(live), plan, runId, digest, reason))
      ensures p != Failed ==>
        && record.Some? && CanCommit(old(Snapshot()), Job(plan, runId, digest, reason))
        && live == Applied(old(live), plan)
        && runId in staging && staging[runId] == map[]
      ensures failures == old(failures) ==>
        && p != CommittedThenFailed
        && (p == Finished <==> CanCommit(old(Snapshot()), Job(plan, runId, digest, reason)) && runId !in old(staging))
      ensures p == Finished ==> failures == old(failures)
      ensures
        var calls := CallsBeforeChmod(old(live), plan, old(registry), old(registryTmp));
        && Costs(old(clock), p != Failed, calls + 1) && (p == Failed ==> clock <= old(clock) + calls)
        && (p == CommittedThenFailed ==>
              && Clear(faults, old(clock), clock - 1) && faults(clock - 1)
              && runId !in old(staging))
    {
      hide Entries, BackupOf, Applied, Planned, Paths, Distinct, HasRun, ValidFiles, WrittenBy, AgreeOutside, RunOf,
        Append, Existing;
      record := None;
      AgreeSelf(live, Paths(plan));
      record := Preserve(plan, runId);
      if record == None { return Failed, None; }
      p := Install(plan, runId, digest, reason, record.value);
    }

    lemma CanCommitFresh(s: State, job: Job)
      requires CanCommit(s, job)
      ensures !HasRun(s.registry, job.runId) && job.runId !in s.backups
    {
      hide Distinct, HasRun;
    }

    /** Two sets of run directories differ at most in one run. */
    static ghost predicate Elsewhere(runId: string, before: map<string, Files>, after: map<string, Files>) {
      after - {runId} == before - {runId}
    }

    /** The try and catch blocks: commit, or give back the live files and drop the run's directories. */
    method Transact(plan: Plan, runId: string, digest: string, reason: string) returns (p: Progress)
      requires ValidFiles(sha, plan)
      modifies `clock, `failures, `live, `backups, `staging, `registry, `registryTmp
      ensures Counts(old(clock), old(failures))
      ensures p == Finished ==>
        && CanCommit(old(Snapshot()), Job(plan, runId, digest, reason))
        && live == Applied(old(live), plan)
        && backups == old(backups)[runId := BackupOf(old(live), plan)]
        && staging == old(staging)[runId := map[]]
      ensures p != Finished ==>
        live == old(live) && backups == old(backups) - {runId} && staging == old(staging) - {runId}
      ensures registry == if p == Failed then old(registry)
                          else Append(old(registry), RunOf(sha, old(live), plan, runId, digest, reason))
      ensures p == CommittedThenFailed ==> !HasRun(old(registry), runId)
      ensures failures == old(failures) ==>
        && p != CommittedThenFailed
        && (p == Finished <==> CanCommit(old(Snapshot()), Job(plan, runId, digest, reason)) && runId !in old(staging))
      ensures
        var chmod := old(clock) + CallsBeforeChmod(old(live), plan, old(registry), old(registryTmp));
        var can := CanCommit(old(Snapshot()), Job(plan, runId, digest, reason)) && runId !in old(staging);
        && (p == Finished <==> can && Clear(faults, old(clock), chmod + 1))
        && (p == CommittedThenFailed <==> can && Clear(faults, old(clock), chmod) && faults(chmod))
    {
      hide Entries, BackupOf, Applied, Planned, Paths, Distinct, HasRun, ValidFiles, Restore, AgreeOutside, Append,
        RunOf, CallsBeforeChmod, CanCommit;
      ghost var before := live;
      var record;
      p, record := Attempt(plan, runId, digest, reason);
      if p != Failed { CanCommitFresh(old(Snapshot()), Job(plan, runId, digest, reason)); }
      if p == Finished {
        UpdatedAt(old(backups), backups, runId);
        UpdatedAt(old(staging), staging, runId);
      } else {
        if record.Some? {
          BackupHolds(sha, before, plan);
          RestoreExact(sha, before, live, plan);
          RestoreFromBackup(record.value, runId);
        }
        staging := staging - {runId};
        backups := backups - {runId};
      }
    }

    /** The apply once its input has been accepted. */
    method ApplyLocked(input: ApplyInput, runId: string) returns (r: ApplyResult)
      requires ValidFiles(sha, input.preview.files)
      modifies this
      ensures Counts(old(clock), old(failures))
      ensures Outcome(sha, old(Snapshot()), old(locked), JobOf(input, runId), r, Snapshot(), locked)
      ensures staging
           == if r.Done? then old(staging)[runId := map[]]
              else if r.failure in {RolledBack, AfterCommit} then old(staging) - {runId} else old(staging)
      ensures old(locked) ==> r == Threw(LockRefused)
      ensures
        var can := CanCommit(old(Snapshot()), JobOf(input, runId)) && runId !in old(staging);
        var chmod := old(clock) + 3 + CallsBeforeChmod(old(live), input.preview.files, old(registry), old(registryTmp));
        && (failures == old(failures) ==> (r.Done? <==> !old(locked) && can))
        && (r.Done? <==> !old(locked) && can && Clear(faults, old(clock), chmod + 1))
        && (r == Threw(AfterCommit) <==> !old(locked) && can && Clear(faults, old(clock), chmod) && faults(chmod))
        && (r == Threw(LockLeaked) <==>
              !old(locked) && Clear(faults, old(clock), old(clock) + 2) && faults(old(clock) + 2))
    {
      hide Clear;
      ClearJoins(faults);
      hide Entries, BackupOf, Applied, Planned, Paths, Distinct, HasRun, ValidFiles, Append, RunOf, CallsBeforeChmod,
        CanCommit;
      var refused := AcquireLock();
      if refused.Some? { return Threw(refused.value); }
      var p := Transact(input.preview.files, runId, input.reviewedDigest, input.reason);
      locked := false;
      match p {
        case Finished => return Done(runId);
        case Failed => return Threw(RolledBack);
        case CommittedThenFailed => return Threw(AfterCommit);
      }
    }

    /**
     * All or nothing. Either every plan file holds its planned bytes and mode and one run is recorded,
     * or the live files are exactly what they were. The registry is unchanged by a failed apply except
     * when only the chmod that follows the registry rename failed, and the lock file stays behind only when
     * the call that fills it in did.
     */
    method ApplyPlan(input: ApplyInput, canonical: map<string, Bytes>, runId: string) returns (r: ApplyResult)
      modifies this
      ensures Outcome(sha, old(Snapshot()), old(locked), JobOf(input, runId), r, Snapshot(), locked)
      ensures staging
           == if r.Done? then old(staging)[runId := map[]]
              else if r.failure in {RolledBack, AfterCommit} then old(staging) - {runId} else old(staging)
      ensures old(locked) ==> r.Threw? && r.failure in {Rejected, LockRefused}
      ensures failures == old(failures) ==>
        (r.Done? <==>
          && Revalidates(sha, root, input) && Rescans(sha, canonical, input) && !old(locked)
          && CanCommit(old(Snapshot()), JobOf(input, runId)) && runId !in old(staging))
      ensures Counts(old(clock), old(failures))
      ensures
        var fine := Revalidates(sha, root, input) && Rescans(sha, canonical, input) && !old(locked);
        var can := CanCommit(old(Snapshot()), JobOf(input, runId)) && runId !in old(staging);
        var lock := old(clock) + 3;
        var chmod := lock + 3 + CallsBeforeChmod(old(live), input.preview.files, old(registry), old(registryTmp));
        && (r.Done? <==> fine && can && Clear(faults, old(clock), chmod + 1))
        && (r == Threw(AfterCommit) <==> fine && can && Clear(faults, old(clock), chmod) && faults(chmod))
        && (r == Threw(LockLeaked) <==> fine && Clear(faults, old(clock), lock + 2) && faults(lock + 2))
    {
      hide Entries, BackupOf, Applied, Planned, Paths, Distinct, HasRun, ValidFiles, WellFormedFiles, IsHex64,
        Records, Append, RunOf, CallsBeforeChmod, CanCommit;
      if !Revalidates(sha, root, input) { return Threw(Rejected); }
      var ok := Io(3); // read the MCP entry, USER and SOUL
      if !ok { return Threw(Rejected); }
      if !Rescans(sha, canonical, input) { return Threw(Rejected); }
      r := ApplyLocked(input, runId);
    }

    // ---- rollback ------------------------------------------------------------------------------

    /** First pass: replay the recorded entries, stopping where a backup is missing. */
    method RestoreRecorded(entries: seq<BackupEntry>, backup: Files)
      returns (r: Option<(seq<string>, seq<string>)>)
      modifies `clock, `failures, `live
      ensures Counts(old(clock), old(failures))
      ensures AgreeOutside(live, old(live), EntryPaths(entries))
      ensures r.Some? ==>
        && BackupComplete(entries, backup)
        && live == Restore(old(live), entries, backup)
        && r.value == (ExistedPaths(entries), GonePaths(old(live), entries, backup))
      ensures failures == old(failures) ==> (r.Some? <==> BackupComplete(entries, backup))
    {
      hide AgreeOutside, EntryPaths, Restore, ExistedPaths, GonePaths;
      AgreeSelf(live, EntryPaths(entries));
      ReportNothing(live, backup, []);
      RestoreNothing(live, backup);
      assert entries[..0] == [];
      var restored: seq<string>, removed: seq<string> := [], [];
      for i := 0 to |entries|
        invariant failures == old(failures) && Counts(old(clock), old(failures))
        invariant live == Restore(old(live), entries[..i], backup)
        invariant AgreeOutside(live, old(live), EntryPaths(entries))
        invariant forall j | 0 <= j < i && entries[j].existed :: entries[j].path in backup
        invariant restored == ExistedPaths(entries[..i]) && removed == GonePaths(old(live), entries[..i], backup)
      {
        var e := entries[i];
        ReportNext(old(live), entries, backup, i);
        ghost var now := live;
        RestoreNext(old(live), entries, i, backup);
        if e.existed {
          if e.path !in backup { return None; }
          var ok := Io(3); // read, mkdir, write
          if !ok { return None; }
          live := live[e.path := File(backup[e.path].bytes, if e.path in live then live[e.path].mode else createMode)];
          EntryUpdate(now, live, old(live), entries, i);
          ok := Io(1);
          if !ok { return None; }
          live := live[e.path := live[e.path].(mode := e.mode)];
          EntryUpdate(now, live, old(live), entries, i);
          restored := restored + [e.path];
        } else if e.path in live {
          var ok := Io(1);
          if !ok { return None; }
          live := live - {e.path};
          EntryUpdate(now, live, old(live), entries, i);
          removed := removed + [e.path];
        }
      }
      assert entries[..|entries|] == entries;
      return Some((restored, removed));
    }

    /** Second pass: write back every file the backup directory holds. */
    method RewriteLeftovers(names: seq<string>, backup: Files, already: seq<string>)
      returns (restored: Option<seq<string>>)
      requires StrictlyAscending(Less, names) && forall p :: p in names <==> p in backup
      modifies `clock, `failures, `live
      ensures Counts(old(clock), old(failures))
      ensures AgreeOutside(live, old(live), backup.Keys)
      ensures restored.Some? ==>
        && live == Rewrite(old(live), backup, createMode)
        && restored.value == Extended(already, names)
      ensures restored.Some? <==> failures == old(failures)
    {
      hide RewriteSome, StrictlyAscending, AgreeOutside, Extended;
      ReportNothing(live, backup, already);
      assert names[..0] == [];
      RewriteElsewhere(live, backup, {}, createMode);
      ghost var rewritten: set<string> := {};
      var out := already;
      for i := 0 to |names|
        invariant failures == old(failures) && Counts(old(clock), old(failures))
        invariant live == RewriteSome(old(live), backup, rewritten, createMode)
        invariant forall p :: p in rewritten <==> p in names[..i]
        invariant out == Extended(already, names[..i])
      {
        var rel := names[i];
        ExtendedNext(already, names, i);
        EachOnce(names, i);
        RewriteElsewhere(old(live), backup, rewritten, createMode);
        var ok := Io(4); // lstat, read, mkdir, write
        if !ok { return None; }
        RewriteStep(old(live), backup, rewritten, rel, createMode);
        live := live[rel := File(backup[rel].bytes, if rel in live then live[rel].mode else createMode)];
        rewritten := rewritten + {rel};
        if rel !in out { out := out + [rel]; }
      }
      assert names[..|names|] == names;
      assert rewritten == backup.Keys;
      RewriteElsewhere(old(live), backup, rewritten, createMode);
      return Some(out);
    }

    lemma EachOnce(names: seq<string>, i: nat)
      requires StrictlyAscending(Less, names) && i < |names|
      ensures names[i] !in names[..i]
      ensures forall p :: p in names[..i + 1] <==> p in names[..i] || p == names[i]
    {
      assert names[..i + 1] == names[..i] + [names[i]];
      if names[i] in names[..i] {
        var j :| 0 <= j < i && names[j] == names[i];
        LessIrreflexive(names[i]);
      }
    }

    /**
     * Undo a recorded run. `listing` is the backup directory as the operating system lists it. A rollback
     * that stops part-way has touched only paths the run recorded or backed up. `names` are the backed-up paths in
     * ascending order.
     */
    method RollbackPlan(runId: string, listing: Tree<File>) returns (r: RollbackResult, ghost names: seq<string>)
      requires runId in backups ==> Lists(listing, backups[runId])
      modifies `clock, `failures, `live
      ensures Counts(old(clock), old(failures))
      ensures runId in backups && HasRun(registry, runId) ==>
        AgreeOutside(live, old(live), EntryPaths(FindRun(RunsIn(registry), runId).value.backup) + backups[runId].Keys)
      ensures !(runId in backups && HasRun(registry, runId)) ==> r == NotRestored && live == old(live)
      ensures r.Restored? ==>
        && live == Rollback(old(live), FindRun(RunsIn(registry), runId).value.backup, backups[runId], createMode)
        && (forall p :: p in r.restored <==> p in backups[runId])
      ensures r.Restored? ==>
        var entries := FindRun(RunsIn(registry), runId).value.backup;
        && r.removed == GonePaths(old(live), entries, backups[runId])
        && StrictlyAscending(Less, names) && (forall p :: p in names <==> p in backups[runId])
        && r.restored == Extended(ExistedPaths(entries), names)
      ensures r.Restored? && DistinctEntries(FindRun(RunsIn(registry), runId).value.backup) ==>
        var entries := FindRun(RunsIn(registry), runId).value.backup;
        && (forall p :: p in r.removed <==> p in old(live) && exists e :: e in entries && e.path == p && !e.existed)
        && NoDuplicates(r.removed) && NoDuplicates(r.restored)
      ensures failures == old(failures) ==>
        (r.Restored? <==>
          && runId in backups && HasRun(registry, runId)
          && BackupComplete(FindRun(RunsIn(registry), runId).value.backup, backups[runId]))
    {
      hide AgreeOutside, EntryPaths, Lists, StrictlyAscending, Less, BackupComplete, Restore, RewriteSome,
        ExistedPaths, GonePaths, Extended, DistinctEntries;
      ghost var before := live;
      if runId !in backups { return NotRestored, []; }
      var backup := backups[runId];
      if HasRun(registry, runId) {
        AgreeSelf(live, EntryPaths(FindRun(RunsIn(registry), runId).value.backup) + backup.Keys);
      }
      var ok := Io(2); // lstat of the backup directory, read of the registry
      if !ok || !registry.Runs? { return NotRestored, []; }
      var run := FindRun(registry.runs, runId);
      if run == None { return NotRestored, []; }
      var entries := run.value.backup;
      var recorded := RestoreRecorded(entries, backup);
      AgreeSelf(live, backup.Keys);
      AgreeTwice(live, live, before, backup.Keys, EntryPaths(entries));
      if recorded == None { return NotRestored, []; }
      ListsNamed(listing, backup);
      ok := Io(2 * Size(listing)); // readdir of each directory and lstat of each entry, all before any write
      if !ok { return NotRestored, []; }
      var walked, found := WalkBackup(listing);
      WalkCovers(listing, backup, found, walked);
      ghost var between := live;
      var restored := RewriteLeftovers(walked, backup, recorded.value.0);
      AgreeTwice(live, between, before, backup.Keys, EntryPaths(entries));
      if restored == None { return NotRestored, []; }
      Reported(before, entries, backup, walked);
      return Restored(restored.value, recorded.value.1), walked;
    }

    lemma Reported(before: Files, entries: seq<BackupEntry>, backup: Files, names: seq<string>)
      requires BackupComplete(entries, backup) && forall p :: p in names <==> p in backup
      ensures forall p :: p in Extended(ExistedPaths(entries), names) <==> p in backup
      ensures DistinctEntries(entries) ==>
        && (forall p :: p in GonePaths(before, entries, backup) <==>
              p in before && exists e :: e in entries && e.path == p && !e.existed)
        && NoDuplicates(GonePaths(before, entries, backup)) && NoDuplicates(Extended(ExistedPaths(entries), names))
    {
      hide ExistedPaths, GonePaths, Extended, DistinctEntries;
      ExtendedExactly(ExistedPaths(entries), names);
      forall p | p in ExistedPaths(entries) ensures p in backup { ExistedExactly(entries, p); }
      if DistinctEntries(entries) {
        GoneExactly(before, entries, backup);
        ExistedOnce(entries);
      }
    }
  }
}
