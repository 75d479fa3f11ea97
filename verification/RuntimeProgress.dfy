/** What the interleaved applies get done: every process ends, and one that nothing stands against commits. */
module RuntimeProgress {
  import opened Basics
  import opened RuntimeModel
  import opened RuntimeApply
  import opened RuntimeConcurrency

  // ---- every process ends ----------------------------------------------------------------------

  /** The counters of a process stay within its plan of n files. */
  predicate Shaped(pc: Pc, n: nat) {
    match pc
    case Backing(entries) => |entries| <= n
    case Staging(record, i) => |record| <= n && i <= n
    case Renaming(record, i) => |record| <= n && i <= n
    case Chmodding(record, i) => |record| <= n && i <= n
    case Verifying(record, i) => |record| <= n && i <= n
    case Recording(record) => |record| <= n
    case Publishing(record, _) => |record| <= n
    case Published(record) => |record| <= n
    case Undoing(record, i, _) => i <= |record| <= n
    case _ => true
  }

  /** How many steps a process with n files can still take, whatever fails. */
  function Ahead(pc: Pc, n: nat): (r: nat)
    requires Shaped(pc, n)
    ensures r == 0 <==> pc.Ended?
  {
    match pc
    case Start => 6 * n + 16
    case Probing => 6 * n + 15
    case Creating => 6 * n + 14
    case Holding => 6 * n + 13
    case MakingStage => 6 * n + 12
    case MakingBackup => 6 * n + 11
    case Backing(entries) => 5 * n + 10 + (n - |entries|)
    case Staging(_, i) => 4 * n + 9 + (n - i)
    case Renaming(_, i) => 2 * n + 8 + 2 * (n - i)
    case Chmodding(_, i) => 2 * n + 7 + 2 * (n - i)
    case Verifying(_, i) => n + 7 + (n - i)
    case Recording(_) => n + 6
    case Publishing(_, _) => n + 5
    case Published(_) => n + 4
    case Undoing(record, i, _) => 3 + (|record| - i)
    case Cleaning(_) => 2
    case Unlocking(_) => 1
    case Releasing => 1
    case Ended(_) => 0
  }

  ghost predicate Falls(sha: Bytes -> string, sh: Shared, job: Job, pc: Pc, fails: bool)
    requires Shaped(pc, |job.plan|)
  {
    var next := Step(sha, sh, job, pc, fails).1;
    && Shaped(next, |job.plan|)
    && (if pc.Ended? then next == pc else Ahead(next, |job.plan|) < Ahead(pc, |job.plan|))
  }

  predicate PerFile(pc: Pc) {
    pc.Backing? || pc.Staging? || pc.Renaming? || pc.Chmodding? || pc.Verifying?
  }

  lemma FileStepFalls(sha: Bytes -> string, sh: Shared, job: Job, pc: Pc, fails: bool)
    requires Shaped(pc, |job.plan|) && PerFile(pc)
    ensures Falls(sha, sh, job, pc, fails)
  {
    hide ValidFiles, HasRun, EntryFor, RestoreEntry;
  }

  lemma OtherStepFalls(sha: Bytes -> string, sh: Shared, job: Job, pc: Pc, fails: bool)
    requires Shaped(pc, |job.plan|) && !PerFile(pc)
    ensures Falls(sha, sh, job, pc, fails)
  {
    hide ValidFiles, HasRun, EntryFor, RestoreEntry;
  }

  lemma StepFalls(sha: Bytes -> string, sh: Shared, job: Job, pc: Pc, fails: bool)
    requires Shaped(pc, |job.plan|)
    ensures Falls(sha, sh, job, pc, fails)
  {
    hide Falls, PerFile, Shaped;
    if PerFile(pc) {
      FileStepFalls(sha, sh, job, pc, fails);
    } else {
      OtherStepFalls(sha, sh, job, pc, fails);
    }
  }

  /** How often a process moves. */
  function Turns(schedule: seq<(nat, bool)>, who: nat): (r: nat)
    ensures r <= |schedule|
  {
    if schedule == [] then 0
    else Turns(schedule[..|schedule| - 1], who) + (if schedule[|schedule| - 1].0 == who then 1 else 0)
  }

  lemma {:induction false} TurnsSpent(sha: Bytes -> string, sys: System, schedule: seq<(nat, bool)>, who: nat)
    requires who < |sys.procs| && sys.procs[who].pc == Start
    ensures
      var end, n := Interleave(sha, sys, schedule), |sys.procs[who].job.plan|;
      && |end.procs| == |sys.procs| && end.procs[who].job == sys.procs[who].job && Shaped(end.procs[who].pc, n)
      && (end.procs[who].pc.Ended? || Ahead(end.procs[who].pc, n) + Turns(schedule, who) <= 6 * n + 16)
  {
    hide Step, Ahead, Shaped;
    StartAhead(|sys.procs[who].job.plan|);
    if schedule != [] {
      var k := |schedule| - 1;
      TurnsSpent(sha, sys, schedule[..k], who);
      var before := Interleave(sha, sys, schedule[..k]);
      StepFalls(sha, before.shared, before.procs[who].job, before.procs[who].pc, schedule[k].1);
    }
  }

  lemma StartAhead(n: nat)
    ensures Shaped(Start, n) && Ahead(Start, n) == 6 * n + 16
  {
  }

  /**
   * Nobody waits for anybody: in every interleaving, whatever the others do and whatever fails, a process has
   * ended after 6n + 16 moves of its own, n being the number of its files.
   */
  lemma EveryoneEnds(sha: Bytes -> string, sys: System, schedule: seq<(nat, bool)>, who: nat)
    requires who < |sys.procs| && sys.procs[who].pc == Start
    requires Turns(schedule, who) >= 6 * |sys.procs[who].job.plan| + 16
    ensures |Interleave(sha, sys, schedule).procs| == |sys.procs|
    ensures Interleave(sha, sys, schedule).procs[who].pc.Ended?
  {
    TurnsSpent(sha, sys, schedule, who);
  }

  // ---- a process alone commits -----------------------------------------------------------------

  /** On the way to a commit from this state, nothing having failed. */
  ghost predicate OnCourse(sha: Bytes -> string, sh: Shared, job: Job, pc: Pc, base: State) {
    if BeforeLock(pc) then !sh.locked && sh.Durable() == base && Fresh(sh, job.runId)
    else if pc.Ended? then pc == Ended(Done(job.runId))
    else if pc.Undoing? || pc.Cleaning? || pc.Unlocking? then false
    else pc.Releasing? || InsideInv(sha, sh, job, pc, base)
  }

  lemma CourseBefore(sha: Bytes -> string, sh: Shared, job: Job, pc: Pc, base: State)
    requires ValidFiles(sha, job.plan) && BeforeLock(pc) && OnCourse(sha, sh, job, pc, base)
    ensures OnCourse(sha, Step(sha, sh, job, pc, false).0, job, Step(sha, sh, job, pc, false).1, base)
  {
  }

  /** The step from here goes on inside the lock. */
  ghost predicate GoesOn(sha: Bytes -> string, sh: Shared, job: Job, pc: Pc) {
    var next := Step(sha, sh, job, pc, false).1;
    Inside(next) && !next.Undoing? && !next.Cleaning? && !next.Unlocking?
  }

  lemma RenamesOn(sha: Bytes -> string, sh: Shared, job: Job, pc: Pc, base: State)
    requires CanCommit(base, job) && pc.Renaming? && InsideInv(sha, sh, job, pc, base)
    ensures GoesOn(sha, sh, job, pc)
  {
    hide Distinct, HasRun, AgreeOutside, Paths, StagedOf, Applied, Entries, BackupOf;
    if pc.i < |job.plan| { RenameStep(base.live, sh.live, job.plan, pc.i, DirOf(sh.staging, job.runId)); }
  }

  lemma VerifiesOn(sha: Bytes -> string, sh: Shared, job: Job, pc: Pc, base: State)
    requires ValidFiles(sha, job.plan) && pc.Verifying? && InsideInv(sha, sh, job, pc, base)
    ensures GoesOn(sha, sh, job, pc)
  {
    hide Distinct, HasRun, AgreeOutside, Paths, StagedOf, Applied, Entries, BackupOf;
    if pc.i < |job.plan| { InPlace(base.live, job.plan, pc.i); }
  }

  /** A step inside the lock that nothing fails does not turn back. */
  lemma NoTurningBack(sha: Bytes -> string, sh: Shared, job: Job, pc: Pc, base: State)
    requires ValidFiles(sha, job.plan) && CanCommit(base, job)
    requires Inside(pc) && OnCourse(sha, sh, job, pc, base) && !pc.Releasing?
    ensures GoesOn(sha, sh, job, pc)
  {
    hide Distinct, HasRun, AgreeOutside, Paths, StagedOf, Applied, Entries, BackupOf, EntryFor;
    if pc.Renaming? {
      hide GoesOn, InsideInv;
      RenamesOn(sha, sh, job, pc, base);
    } else if pc.Verifying? {
      hide GoesOn, InsideInv;
      VerifiesOn(sha, sh, job, pc, base);
    }
  }

  lemma InPlace(live: Files, plan: Plan, i: nat)
    requires Distinct(plan) && i < |plan|
    ensures plan[i].path in Applied(live, plan)
    ensures Applied(live, plan)[plan[i].path] == File(plan[i].bytes, plan[i].mode)
  {
    hide Distinct, Planned;
    PlannedAt(plan, i);
  }

  lemma CourseInside(sha: Bytes -> string, sh: Shared, job: Job, pc: Pc, base: State)
    requires ValidFiles(sha, job.plan) && CanCommit(base, job)
    requires !BeforeLock(pc) && OnCourse(sha, sh, job, pc, base)
    ensures OnCourse(sha, Step(sha, sh, job, pc, false).0, job, Step(sha, sh, job, pc, false).1, base)
  {
    hide InsideInv, ValidFiles, CanCommit, EntryFor, HasRun, RestoreEntry;
    if Inside(pc) && !pc.Releasing? {
      NoTurningBack(sha, sh, job, pc, base);
      InsideSteps(sha, sh, job, pc, false, base);
    }
  }

  lemma {:induction false} StaysOnCourse(sha: Bytes -> string, sh: Shared, job: Job, schedule: seq<(nat, bool)>)
    requires ValidFiles(sha, job.plan) && CanCommit(sh.Durable(), job) && !sh.locked && Fresh(sh, job.runId)
    requires forall x | x in schedule :: x == (0, false)
    ensures
      var end := Interleave(sha, Solo(sh, job), schedule);
      && |end.procs| == 1 && end.procs[0].job == job
      && OnCourse(sha, end.shared, job, end.procs[0].pc, sh.Durable())
      && Turns(schedule, 0) == |schedule|
  {
    hide Step, ValidFiles, CanCommit, InsideInv, Fresh;
    if schedule != [] {
      var k := |schedule| - 1;
      assert forall x | x in schedule[..k] :: x in schedule;
      StaysOnCourse(sha, sh, job, schedule[..k]);
      var before := Interleave(sha, Solo(sh, job), schedule[..k]);
      assert schedule[k] in schedule;
      var pc := before.procs[0].pc;
      hide OnCourse;
      if BeforeLock(pc) {
        CourseBefore(sha, before.shared, job, pc, sh.Durable());
      } else {
        CourseInside(sha, before.shared, job, pc, sh.Durable());
      }
    }
  }

  /**
   * Alone, with no call failing, a job whose files are what they say, whose run id is new and whose target has
   * a readable registry and no lock file is applied within 6n + 16 steps.
   */
  lemma {:induction false} SoloCommits(sha: Bytes -> string, sh: Shared, job: Job, schedule: seq<(nat, bool)>)
    requires forall f | f in job.plan :: sha(f.bytes) == f.sha && f.mode <= 0x1FF
    requires forall i, j | 0 <= i < j < |job.plan| :: job.plan[i].path != job.plan[j].path
    requires !sh.locked && sh.registry != Corrupt && job.runId != ""
    requires job.runId !in sh.backups && job.runId !in sh.staging && !HasRun(sh.registry, job.runId)
    requires |schedule| >= 6 * |job.plan| + 16 && forall x | x in schedule :: x == (0, false)
    ensures
      var end := Interleave(sha, Solo(sh, job), schedule);
      && |end.procs| == 1 && end.procs[0].pc == Ended(Done(job.runId)) && !end.shared.locked
      && end.shared.Durable() == Commit(sha, sh.Durable(), job)
  {
    hide InsideInv, Interleave, HasRun, Commit;
    StaysOnCourse(sha, sh, job, schedule);
    EveryoneEnds(sha, Solo(sh, job), schedule, 0);
    SoloRunAllowed(sha, sh, job, schedule);
  }
}
