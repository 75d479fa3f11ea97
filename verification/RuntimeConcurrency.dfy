/**
 * Any number of processes applying plans to one target, interleaved call by call.
 *
 * Each process takes the steps of `applyPlan` one file-system call at a time, and any call may fail
 * except those of the recovery. A schedule names, for each step, the process that moves and whether its
 * call fails.
 */
module RuntimeConcurrency {
  import opened Basics
  import opened Sorting
  import opened RuntimeModel
  import opened RuntimeApply

  /** Everything below the target directory that the processes share. */
  datatype Shared = Shared(
    live: Files, registry: RegistryFile, backups: map<string, Files>, staging: map<string, Files>, locked: bool)
  {
    function Durable(): State {
      State(live, registry, backups)
    }
  }

  type Record = seq<BackupEntry>

  /** Where a process is. A flag on the recovery steps says that the registry rename already happened. */
  datatype Pc =
    | Start                                       // input checks
    | Probing                                     // lock: existsSync
    | Creating                                    // lock: openSync with 'wx'
    | Holding                                     // lock: write the pid
    | MakingStage | MakingBackup                  // mkdir of the run's directories
    | Backing(entries: Record)                    // next: back up file |entries|
    | Staging(record: Record, i: nat)
    | Renaming(record: Record, i: nat)
    | Chmodding(record: Record, i: nat)
    | Verifying(record: Record, i: nat)
    | Recording(record: Record)                   // registry: read and check
    | Publishing(record: Record, runs: seq<Run>)  // registry: rename the new file over the old
    | Published(record: Record)                   // registry: chmod
    | Undoing(record: Record, i: nat, entry: bool)
    | Cleaning(entry: bool)
    | Unlocking(entry: bool)
    | Releasing
    | Ended(result: ApplyResult)

  datatype Proc = Proc(job: Job, pc: Pc)

  function DirOf(dirs: map<string, Files>, runId: string): Files {
    if runId in dirs then dirs[runId] else map[]
  }

  function NewRun(job: Job, record: Record): Run {
    Run(job.runId, job.digest, job.reason, record, WrittenBy(job.plan))
  }

  /** One step of one process. */
  function Step(sha: Bytes -> string, sh: Shared, job: Job, pc: Pc, fails: bool): (Shared, Pc) {
    match pc
    case Start =>
      if fails || !ValidFiles(sha, job.plan) then (sh, Ended(Threw(Rejected))) else (sh, Probing)
    case Probing =>
      if fails || sh.locked then (sh, Ended(Threw(LockRefused))) else (sh, Creating)
    case Creating =>
      if fails || sh.locked then (sh, Ended(Threw(LockRefused))) else (sh.(locked := true), Holding)
    case Holding =>
      if fails then (sh, Ended(Threw(LockLeaked))) else (sh, MakingStage)
    case MakingStage =>
      if fails || job.runId in sh.staging || job.runId in sh.backups then (sh, Cleaning(false))
      else (sh.(staging := sh.staging[job.runId := map[]]), MakingBackup)
    case MakingBackup =>
      if fails then (sh, Cleaning(false))
      else (sh.(backups := sh.backups[job.runId := map[]]), Backing([]))
    case Backing(entries) =>
      if |entries| >= |job.plan| then (sh, Staging(entries, 0))
      else
        var f := job.plan[|entries|];
        if fails then (sh, Cleaning(false))
        else if f.path !in sh.live then (sh, Backing(entries + [EntryFor(sha, sh.live, f)]))
        else
          var dir := DirOf(sh.backups, job.runId)[f.path := File(sh.live[f.path].bytes, OWNER_ONLY)];
          (sh.(backups := sh.backups[job.runId := dir]), Backing(entries + [EntryFor(sha, sh.live, f)]))
    case Staging(record, i) =>
      if i >= |job.plan| then (sh, Renaming(record, 0))
      else
        var f := job.plan[i];
        if fails || sha(f.bytes) != f.sha then (sh, Undoing(record, 0, false))
        else
          var dir := DirOf(sh.staging, job.runId)[f.path := File(f.bytes, OWNER_ONLY)];
          (sh.(staging := sh.staging[job.runId := dir]), Staging(record, i + 1))
    case Renaming(record, i) =>
      if i >= |job.plan| then (sh, Verifying(record, 0))
      else
        var f, dir := job.plan[i], DirOf(sh.staging, job.runId);
        if fails || f.path !in dir then (sh, Undoing(record, 0, false))
        else (sh.(live := sh.live[f.path := dir[f.path]], staging := sh.staging[job.runId := dir - {f.path}]),
              Chmodding(record, i))
    case Chmodding(record, i) =>
      if i >= |job.plan| || fails || job.plan[i].path !in sh.live then (sh, Undoing(record, 0, false))
      else
        var f := job.plan[i];
        (sh.(live := sh.live[f.path := sh.live[f.path].(mode := f.mode)]), Renaming(record, i + 1))
    case Verifying(record, i) =>
      if i >= |job.plan| then (sh, Recording(record))
      else
        var f := job.plan[i];
        if fails || f.path !in sh.live || sha(sh.live[f.path].bytes) != f.sha || sh.live[f.path].mode > MAX_SAFE_MODE
        then (sh, Undoing(record, 0, false))
        else (sh, Verifying(record, i + 1))
    case Recording(record) =>
      if fails || sh.registry == Corrupt || job.runId == "" || HasRun(sh.registry, job.runId)
      then (sh, Undoing(record, 0, false))
      else (sh, Publishing(record, RunsIn(sh.registry)))
    case Publishing(record, runs) =>
      if fails then (sh, Undoing(record, 0, false))
      else (sh.(registry := Runs(runs + [NewRun(job, record)])), Published(record))
    case Published(record) =>
      if fails then (sh, Undoing(record, 0, true)) else (sh, Releasing)
    case Undoing(record, i, entry) =>
      if i >= |record| then (sh, Cleaning(entry))
      else (sh.(live := RestoreEntry(sh.live, record[i], DirOf(sh.backups, job.runId))), Undoing(record, i + 1, entry))
    case Cleaning(entry) =>
      (sh.(backups := sh.backups - {job.runId}, staging := sh.staging - {job.runId}), Unlocking(entry))
    case Unlocking(entry) =>
      (sh.(locked := false), Ended(Threw(if entry then AfterCommit else RolledBack)))
    case Releasing =>
      (sh.(locked := false), Ended(Done(job.runId)))
    case Ended(_) =>
      (sh, pc)
  }

  /** The shared state, the processes, and the order in which they created the lock file. */
  datatype System = System(shared: Shared, procs: seq<Proc>, order: seq<nat>)

  function Move(sha: Bytes -> string, sys: System, who: nat, fails: bool): System {
    if who >= |sys.procs| then sys
    else
      var p := sys.procs[who];
      var (sh, pc) := Step(sha, sys.shared, p.job, p.pc, fails);
      System(sh, sys.procs[who := p.(pc := pc)],
             if p.pc == Creating && pc == Holding then sys.order + [who] else sys.order)
  }

  /** A whole interleaving. */
  function Interleave(sha: Bytes -> string, sys: System, schedule: seq<(nat, bool)>): System {
    if schedule == [] then sys
    else
      var n := |schedule| - 1;
      Move(sha, Interleave(sha, sys, schedule[..n]), schedule[n].0, schedule[n].1)
  }

  // ---- the serial meaning ----------------------------------------------------------------------

  /** What a process contributes: a whole apply, or, when only the last chmod failed, a registry entry. */
  datatype Effect = Whole(job: Job) | EntryOnly(job: Job)

  function EffectOf(p: Proc): seq<Effect> {
    match p.pc
    case Releasing => [Whole(p.job)]
    case Ended(Done(_)) => [Whole(p.job)]
    case Undoing(_, _, true) => [EntryOnly(p.job)]
    case Cleaning(true) => [EntryOnly(p.job)]
    case Unlocking(true) => [EntryOnly(p.job)]
    case Ended(Threw(AfterCommit)) => [EntryOnly(p.job)]
    case _ => []
  }

  /** The effects of the processes in the order in which they took the lock. */
  function Effects(procs: seq<Proc>, order: seq<nat>): seq<Effect> {
    if order == [] then []
    else
      var last := order[|order| - 1];
      Effects(procs, order[..|order| - 1]) + (if last < |procs| then EffectOf(procs[last]) else [])
  }

  function Serial1(sha: Bytes -> string, s: State, e: Effect): State {
    if e.Whole? then Commit(sha, s, e.job) else s.(registry := Commit(sha, s, e.job).registry)
  }

  /** One effect after another, nothing in between. */
  function Serial(sha: Bytes -> string, s: State, effects: seq<Effect>): State {
    if effects == [] then s
    else Serial1(sha, Serial(sha, s, effects[..|effects| - 1]), effects[|effects| - 1])
  }

  // ---- what holds while a process is inside ----------------------------------------------------

  /** The process has the lock. */
  predicate Inside(pc: Pc) {
    !pc.Start? && !pc.Probing? && !pc.Creating? && !pc.Ended?
  }

  /** No directory and no registry entry carries this run id. */
  ghost predicate Fresh(sh: Shared, runId: string) {
    runId !in sh.backups && runId !in sh.staging && !HasRun(sh.registry, runId)
  }

  /** The backup of a run is complete and nothing else in the backups has changed. */
  ghost predicate Saved(sha: Bytes -> string, sh: Shared, job: Job, record: Record, base: State) {
    && record == Entries(sha, base.live, job.plan)
    && job.runId !in base.backups
    && sh.backups == base.backups[job.runId := BackupOf(base.live, job.plan)]
  }

  /** The plan is in place and the registry not yet written. */
  ghost predicate Installed(sha: Bytes -> string, sh: Shared, job: Job, record: Record, base: State) {
    && Saved(sha, sh, job, record, base)
    && Distinct(job.plan) && sh.live == Applied(base.live, job.plan)
    && sh.registry == base.registry && !HasRun(base.registry, job.runId)
  }

  /** The first i recorded files are back as they were, and nothing outside the plan has changed. */
  ghost predicate UndoneTo(live: Files, before: Files, plan: Plan, i: nat)
    requires i <= |plan|
  {
    && AgreeOutside(live, before, Paths(plan))
    && forall j | 0 <= j < i :: SameAt(live, before, plan[j].path)
  }

  ghost predicate BackingInv(sha: Bytes -> string, sh: Shared, job: Job, entries: Record, base: State) {
    && |entries| <= |job.plan|
    && sh.live == base.live && sh.registry == base.registry && !HasRun(base.registry, job.runId)
    && entries == Entries(sha, base.live, job.plan)[..|entries|]
    && job.runId !in base.backups
    && sh.backups == base.backups[job.runId := BackupOf(base.live, job.plan[..|entries|])]
  }

  ghost predicate StagingInv(sha: Bytes -> string, sh: Shared, job: Job, record: Record, i: nat, base: State) {
    && Saved(sha, sh, job, record, base) && i <= |job.plan|
    && sh.live == base.live && sh.registry == base.registry && !HasRun(base.registry, job.runId)
    && DirOf(sh.staging, job.runId) == StagedOf(job.plan[..i])
  }

  ghost predicate RenamingInv(sha: Bytes -> string, sh: Shared, job: Job, record: Record, i: nat, base: State) {
    && Saved(sha, sh, job, record, base) && i <= |job.plan|
    && sh.registry == base.registry && !HasRun(base.registry, job.runId)
    && Distinct(job.plan[..i])
    && DirOf(sh.staging, job.runId) == StagedOf(job.plan) - Paths(job.plan[..i])
    && AgreeOutside(sh.live, base.live, Paths(job.plan))
    && (Distinct(job.plan) ==> sh.live == Applied(base.live, job.plan[..i]))
  }

  ghost predicate ChmoddingInv(sha: Bytes -> string, sh: Shared, job: Job, record: Record, i: nat, base: State) {
    && Saved(sha, sh, job, record, base) && i < |job.plan|
    && sh.registry == base.registry && !HasRun(base.registry, job.runId)
    && Distinct(job.plan[..i + 1])
    && DirOf(sh.staging, job.runId) == StagedOf(job.plan) - Paths(job.plan[..i + 1])
    && AgreeOutside(sh.live, base.live, Paths(job.plan))
    && var f := job.plan[i];
       f.path in sh.live
       && (Distinct(job.plan) ==>
             sh.live[f.path := sh.live[f.path].(mode := f.mode)] == Applied(base.live, job.plan[..i + 1]))
  }

  ghost predicate UndoingInv(sha: Bytes -> string, sh: Shared, job: Job, record: Record, i: nat, base: State) {
    && Saved(sha, sh, job, record, base) && i <= |job.plan|
    && sh.registry == base.registry
    && UndoneTo(sh.live, base.live, job.plan, i)
  }

  /** The shared state, seen against the serial state of everyone who had the lock before. */
  ghost predicate InsideInv(sha: Bytes -> string, sh: Shared, job: Job, pc: Pc, base: State) {
    match pc
    case Holding => sh.Durable() == base && Fresh(sh, job.runId)
    case MakingStage => sh.Durable() == base && Fresh(sh, job.runId)
    case MakingBackup =>
      && sh.Durable() == base && job.runId !in sh.backups && !HasRun(sh.registry, job.runId)
      && DirOf(sh.staging, job.runId) == map[]
    case Backing(entries) => BackingInv(sha, sh, job, entries, base) && DirOf(sh.staging, job.runId) == map[]
    case Staging(record, i) => StagingInv(sha, sh, job, record, i, base)
    case Renaming(record, i) => RenamingInv(sha, sh, job, record, i, base)
    case Chmodding(record, i) => ChmoddingInv(sha, sh, job, record, i, base)
    case Verifying(record, i) => Installed(sha, sh, job, record, base)
    case Recording(record) => Installed(sha, sh, job, record, base)
    case Publishing(record, runs) =>
      && Installed(sha, sh, job, record, base)
      && base.registry != Corrupt && job.runId != "" && runs == RunsIn(base.registry)
    case Published(record) =>
      && Saved(sha, sh, job, record, base) && CanCommit(base, job)
      && sh.Durable() == Commit(sha, base, job)
    case Undoing(record, i, _) => UndoingInv(sha, sh, job, record, i, base)
    case Cleaning(_) =>
      && sh.live == base.live && sh.registry == base.registry
      && job.runId !in base.backups && sh.backups - {job.runId} == base.backups
    case Unlocking(_) => sh.Durable() == base
    case Releasing => sh.Durable() == base
    case _ => true
  }

  /** The serial state after this step, if it was the serial state of the lock's earlier owners before it. */
  function After(sha: Bytes -> string, base: State, job: Job, pc: Pc, fails: bool): State {
    if pc.Published? then Serial1(sha, base, if fails then EntryOnly(job) else Whole(job)) else base
  }

  /** What one step inside the lock has to preserve. */
  ghost predicate StepKeeps(sha: Bytes -> string, sh: Shared, job: Job, pc: Pc, fails: bool, base: State) {
    var (sh', pc') := Step(sha, sh, job, pc, fails);
    var base' := After(sha, base, job, pc, fails);
    && InsideInv(sha, sh', job, pc', base')
    && (!Inside(pc') ==> pc'.Ended? && sh'.Durable() == base')
  }

  lemma FirstSteps(sha: Bytes -> string, sh: Shared, job: Job, pc: Pc, fails: bool, base: State)
    requires pc.Holding? || pc.MakingStage? || pc.MakingBackup?
    requires InsideInv(sha, sh, job, pc, base)
    ensures StepKeeps(sha, sh, job, pc, fails, base)
  {
    NothingYet(base.live);
    assert job.plan[..0] == [];
  }

  lemma LastSteps(sha: Bytes -> string, sh: Shared, job: Job, pc: Pc, fails: bool, base: State)
    requires pc.Cleaning? || pc.Unlocking? || pc.Releasing?
    requires InsideInv(sha, sh, job, pc, base)
    ensures StepKeeps(sha, sh, job, pc, fails, base)
  {
  }

  lemma BackingSteps(sha: Bytes -> string, sh: Shared, job: Job, pc: Pc, fails: bool, base: State)
    requires pc.Backing? && InsideInv(sha, sh, job, pc, base)
    ensures StepKeeps(sha, sh, job, pc, fails, base)
  {
    hide Entries, BackupOf, StagedOf, Distinct, HasRun, Paths, Applied;
    var n := |pc.entries|;
    if n < |job.plan| {
      EntriesStep(sha, base.live, job.plan, n);
      BackupStep(base.live, job.plan, n);
    } else {
      assert job.plan[..n] == job.plan && job.plan[..0] == [];
    }
    NothingYet(base.live);
  }

  lemma StagingSteps(sha: Bytes -> string, sh: Shared, job: Job, pc: Pc, fails: bool, base: State)
    requires pc.Staging? && InsideInv(sha, sh, job, pc, base)
    ensures StepKeeps(sha, sh, job, pc, fails, base)
  {
    hide Entries, BackupOf, StagedOf, Distinct, HasRun, Paths, Applied, AgreeOutside;
    if pc.i < |job.plan| {
      StagedStep(job.plan, pc.i);
    } else {
      assert job.plan[..pc.i] == job.plan;
    }
    assert job.plan[..0] == [];
    NothingYet(base.live);
    AgreeSelf(base.live, Paths(job.plan));
  }

  lemma RenamingSteps(sha: Bytes -> string, sh: Shared, job: Job, pc: Pc, fails: bool, base: State)
    requires pc.Renaming? && InsideInv(sha, sh, job, pc, base)
    ensures StepKeeps(sha, sh, job, pc, fails, base)
  {
    hide Entries, BackupOf, StagedOf, Distinct, HasRun, Paths, Applied, AgreeOutside;
    var plan, i := job.plan, pc.i;
    var dir := DirOf(sh.staging, job.runId);
    if i < |plan| {
      RenameStep(base.live, sh.live, plan, i, dir);
      if plan[i].path in dir {
        AgreeUpdate(sh.live, base.live, plan, i, dir[plan[i].path]);
      }
    } else {
      assert plan[..i] == plan;
    }
  }

  lemma ChmoddingSteps(sha: Bytes -> string, sh: Shared, job: Job, pc: Pc, fails: bool, base: State)
    requires pc.Chmodding? && InsideInv(sha, sh, job, pc, base)
    ensures StepKeeps(sha, sh, job, pc, fails, base)
  {
    hide Entries, BackupOf, StagedOf, Distinct, HasRun, Paths, Applied, AgreeOutside;
    var f := job.plan[pc.i];
    AgreeUpdate(sh.live, base.live, job.plan, pc.i, sh.live[f.path].(mode := f.mode));
  }

  lemma RegistrySteps(sha: Bytes -> string, sh: Shared, job: Job, pc: Pc, fails: bool, base: State)
    requires pc.Verifying? || pc.Recording? || pc.Publishing? || pc.Published?
    requires InsideInv(sha, sh, job, pc, base)
    ensures StepKeeps(sha, sh, job, pc, fails, base)
  {
    AppliedElsewhere(base.live, job.plan);
    hide Entries, BackupOf, Distinct, Paths, Applied, AgreeOutside, WrittenBy;
  }

  lemma UndoingSteps(sha: Bytes -> string, sh: Shared, job: Job, pc: Pc, fails: bool, base: State)
    requires pc.Undoing? && InsideInv(sha, sh, job, pc, base)
    ensures StepKeeps(sha, sh, job, pc, fails, base)
  {
    if pc.i < |job.plan| {
      UndoOne(sha, sh.live, base.live, job.plan, pc.i);
    } else {
      UndoneAll(sh.live, base.live, job.plan);
    }
    hide Entries, BackupOf, Distinct, HasRun, Paths, Applied, UndoneTo, RestoreEntry;
  }

  lemma UndoOne(sha: Bytes -> string, live: Files, before: Files, plan: Plan, i: nat)
    requires i < |plan| && UndoneTo(live, before, plan, i)
    ensures UndoneTo(RestoreEntry(live, Entries(sha, before, plan)[i], BackupOf(before, plan)), before, plan, i + 1)
  {
    assert plan[i] in plan && plan[i].path in Paths(plan);
  }

  lemma UndoneAll(live: Files, before: Files, plan: Plan)
    requires UndoneTo(live, before, plan, |plan|)
    ensures live == before
  {
    forall p: string ensures SameAt(live, before, p) {
      if p in Paths(plan) {
        var f :| f in plan && f.path == p;
        var i :| 0 <= i < |plan| && plan[i] == f;
        assert SameAt(live, before, plan[i].path);
      }
    }
    SameEverywhere(live, before);
  }

  /** Every step inside the lock keeps what holds there, or ends with exactly the serial state. */
  lemma InsideSteps(sha: Bytes -> string, sh: Shared, job: Job, pc: Pc, fails: bool, base: State)
    requires Inside(pc) && InsideInv(sha, sh, job, pc, base)
    ensures StepKeeps(sha, sh, job, pc, fails, base)
  {
    hide InsideInv, StepKeeps;
    match pc {
      case Backing(_) => BackingSteps(sha, sh, job, pc, fails, base);
      case Staging(_, _) => StagingSteps(sha, sh, job, pc, fails, base);
      case Renaming(_, _) => RenamingSteps(sha, sh, job, pc, fails, base);
      case Chmodding(_, _) => ChmoddingSteps(sha, sh, job, pc, fails, base);
      case Verifying(_, _) => RegistrySteps(sha, sh, job, pc, fails, base);
      case Recording(_) => RegistrySteps(sha, sh, job, pc, fails, base);
      case Publishing(_, _) => RegistrySteps(sha, sh, job, pc, fails, base);
      case Published(_) => RegistrySteps(sha, sh, job, pc, fails, base);
      case Undoing(_, _, _) => UndoingSteps(sha, sh, job, pc, fails, base);
      case Holding => FirstSteps(sha, sh, job, pc, fails, base);
      case MakingStage => FirstSteps(sha, sh, job, pc, fails, base);
      case MakingBackup => FirstSteps(sha, sh, job, pc, fails, base);
      case _ => LastSteps(sha, sh, job, pc, fails, base);
    }
  }

  // ---- the whole system ------------------------------------------------------------------------

  predicate BeforeLock(pc: Pc) {
    pc.Start? || pc.Probing? || pc.Creating?
  }

  /** The process created the lock file at some point. */
  predicate Took(pc: Pc) {
    !BeforeLock(pc) && pc != Ended(Threw(Rejected)) && pc != Ended(Threw(LockRefused))
  }

  ghost predicate DistinctRuns(procs: seq<Proc>) {
    forall i, j | 0 <= i < j < |procs| :: procs[i].job.runId != procs[j].job.runId
  }

  /** Each effect could commit on the serial state of those before it. */
  ghost predicate EffectsPossible(sha: Bytes -> string, s: State, effects: seq<Effect>) {
    forall k | 0 <= k < |effects| :: CanCommit(Serial(sha, s, effects[..k]), effects[k].job)
  }

  ghost function Base(sha: Bytes -> string, s0: State, sys: System): State {
    Serial(sha, s0, Effects(sys.procs, sys.order))
  }

  /** The order lists, without repetition, exactly those who created the lock; whoever is inside came last. */
  ghost predicate LockInv(sys: System) {
    && NoDuplicates(sys.order)
    && (forall w: nat :: w in sys.order <==> w < |sys.procs| && Took(sys.procs[w].pc))
    && (forall i | 0 <= i < |sys.procs| && Inside(sys.procs[i].pc) ::
          sys.shared.locked && sys.order != [] && sys.order[|sys.order| - 1] == i)
  }

  ghost predicate FreshInv(sys: System) {
    forall i | 0 <= i < |sys.procs| && BeforeLock(sys.procs[i].pc) :: Fresh(sys.shared, sys.procs[i].job.runId)
  }

  /** The shared state is the serial state of the lock order, up to what the process inside is doing. */
  ghost predicate SerialInv(sha: Bytes -> string, s0: State, sys: System) {
    && EffectsPossible(sha, s0, Effects(sys.procs, sys.order))
    && (forall i | 0 <= i < |sys.procs| && Inside(sys.procs[i].pc) ::
          InsideInv(sha, sys.shared, sys.procs[i].job, sys.procs[i].pc, Base(sha, s0, sys)))
    && ((forall i | 0 <= i < |sys.procs| :: !Inside(sys.procs[i].pc)) ==> sys.shared.Durable() == Base(sha, s0, sys))
  }

  ghost predicate SystemInv(sha: Bytes -> string, s0: State, sys: System) {
    DistinctRuns(sys.procs) && LockInv(sys) && FreshInv(sys) && SerialInv(sha, s0, sys)
  }

  lemma {:induction false} EffectsSame(procs: seq<Proc>, procs': seq<Proc>, order: seq<nat>)
    requires |procs| == |procs'|
    requires forall w | w in order && w < |procs| :: EffectOf(procs[w]) == EffectOf(procs'[w])
    ensures Effects(procs, order) == Effects(procs', order)
  {
    if order != [] {
      var n := |order| - 1;
      assert order[n] in order;
      forall w | w in order[..n] ensures w in order { }
      EffectsSame(procs, procs', order[..n]);
    }
  }

  lemma SerialNext(sha: Bytes -> string, s: State, effects: seq<Effect>, e: Effect)
    ensures Serial(sha, s, effects + [e]) == Serial1(sha, Serial(sha, s, effects), e)
  {
    assert (effects + [e])[..|effects|] == effects;
  }

  lemma PossibleNext(sha: Bytes -> string, s: State, effects: seq<Effect>, e: Effect)
    requires EffectsPossible(sha, s, effects) && CanCommit(Serial(sha, s, effects), e.job)
    ensures EffectsPossible(sha, s, effects + [e])
  {
    var all := effects + [e];
    forall k | 0 <= k < |all| ensures CanCommit(Serial(sha, s, all[..k]), all[k].job) {
      assert all[..k] == effects[..k];
      if k == |effects| {
        assert effects[..k] == effects;
      }
    }
  }

  /** A step touches no run but its own. */
  lemma StepOwnRun(sha: Bytes -> string, sh: Shared, job: Job, pc: Pc, fails: bool, other: string, base: State)
    requires Inside(pc) && InsideInv(sha, sh, job, pc, base)
    requires other != job.runId && Fresh(sh, other)
    ensures Fresh(Step(sha, sh, job, pc, fails).0, other)
  {
    hide Entries, BackupOf, StagedOf, Distinct, Paths, Applied, AgreeOutside, RestoreEntry, EntryFor, WrittenBy;
  }

  lemma {:induction false} StepOutside(sha: Bytes -> string, sh: Shared, job: Job, pc: Pc, fails: bool)
    requires !Inside(pc)
    ensures
      var (sh', pc') := Step(sha, sh, job, pc, fails);
      if Inside(pc') then pc.Creating? && pc' == Holding && !sh.locked && sh' == sh.(locked := true)
      else sh' == sh && (Took(pc) <==> Took(pc')) && EffectOf(Proc(job, pc')) == EffectOf(Proc(job, pc))
           && (BeforeLock(pc') ==> BeforeLock(pc))
  {
  }

  lemma {:induction false} StepInside(sha: Bytes -> string, sh: Shared, job: Job, pc: Pc, fails: bool)
    requires Inside(pc)
    ensures
      var (sh', pc') := Step(sha, sh, job, pc, fails);
      && (Inside(pc') ==> sh'.locked == sh.locked)
      && Took(pc') && !BeforeLock(pc')
      && EffectOf(Proc(job, pc')) ==
           EffectOf(Proc(job, pc)) + (if pc.Published? then [if fails then EntryOnly(job) else Whole(job)] else [])
      && (pc.Published? ==> EffectOf(Proc(job, pc)) == [])
  {
  }

  /** A step by a process without the lock, which does not get the lock. */
  lemma MoveOutside(sha: Bytes -> string, s0: State, sys: System, who: nat, fails: bool)
    requires who < |sys.procs| && SystemInv(sha, s0, sys) && !Inside(sys.procs[who].pc)
    requires !Inside(Move(sha, sys, who, fails).procs[who].pc)
    ensures SystemInv(sha, s0, Move(sha, sys, who, fails))
  {
    hide Move, DistinctRuns, LockInv, FreshInv, SerialInv, EffectOf, Took, BeforeLock, Inside;
    OutsideParts(sha, sys, who, fails);
    var p := Move(sha, sys, who, fails).procs[who];
    OutsideKeepsLock(sys, who, p);
    OutsideKeepsFresh(sys, who, p);
    OutsideKeepsSerial(sha, s0, sys, who, p);
    OutsideKeepsRuns(sys.procs, who, p);
  }

  lemma OutsideKeepsRuns(procs: seq<Proc>, who: nat, p: Proc)
    requires who < |procs| && DistinctRuns(procs) && p.job == procs[who].job
    ensures DistinctRuns(procs[who := p])
  {
  }

  lemma OutsideKeepsLock(sys: System, who: nat, p: Proc)
    requires who < |sys.procs| && LockInv(sys) && !Inside(p.pc) && (Took(p.pc) <==> Took(sys.procs[who].pc))
    ensures LockInv(sys.(procs := sys.procs[who := p]))
  {
    hide Took, Inside;
  }

  lemma OutsideKeepsFresh(sys: System, who: nat, p: Proc)
    requires who < |sys.procs| && FreshInv(sys) && p.job == sys.procs[who].job
    requires BeforeLock(p.pc) ==> BeforeLock(sys.procs[who].pc)
    ensures FreshInv(sys.(procs := sys.procs[who := p]))
  {
    hide Fresh, BeforeLock;
  }

  lemma OutsideKeepsSerial(sha: Bytes -> string, s0: State, sys: System, who: nat, p: Proc)
    requires who < |sys.procs| && SerialInv(sha, s0, sys) && EffectOf(p) == EffectOf(sys.procs[who])
    requires !Inside(p.pc) && !Inside(sys.procs[who].pc)
    ensures SerialInv(sha, s0, sys.(procs := sys.procs[who := p]))
  {
    var procs := sys.procs[who := p];
    EffectsSame(sys.procs, procs, sys.order);
    hide EffectOf, Effects, Serial, InsideInv, EffectsPossible, Inside;
    assert forall i | 0 <= i < |procs| :: !Inside(procs[i].pc) <==> !Inside(sys.procs[i].pc);
  }

  lemma {:induction false} OutsideParts(sha: Bytes -> string, sys: System, who: nat, fails: bool)
    requires who < |sys.procs| && !Inside(sys.procs[who].pc)
    requires !Inside(Move(sha, sys, who, fails).procs[who].pc)
    ensures
      var p, sys' := sys.procs[who], Move(sha, sys, who, fails);
      var p' := sys'.procs[who];
      && sys' == sys.(procs := sys.procs[who := p']) && p'.job == p.job
      && (Took(p'.pc) <==> Took(p.pc)) && (BeforeLock(p'.pc) ==> BeforeLock(p.pc)) && EffectOf(p') == EffectOf(p)
  {
    hide Step, EffectOf, Took, BeforeLock;
    StepOutside(sha, sys.shared, sys.procs[who].job, sys.procs[who].pc, fails);
  }

  lemma {:induction false} SameEffectsIn(sha: Bytes -> string, sys: System, who: nat, fails: bool)
    requires who < |sys.procs| && LockInv(sys) && !Inside(sys.procs[who].pc)
    requires Inside(Move(sha, sys, who, fails).procs[who].pc)
    ensures
      var sys' := Move(sha, sys, who, fails);
      && sys'.order == sys.order + [who] && who !in sys.order
      && Effects(sys'.procs, sys'.order) == Effects(sys.procs, sys.order)
  {
    hide Step, EffectOf;
    var p, sys' := sys.procs[who], Move(sha, sys, who, fails);
    StepOutside(sha, sys.shared, p.job, p.pc, fails);
    assert sys'.order[..|sys.order|] == sys.order;
    EffectsSame(sys.procs, sys'.procs, sys.order);
    NewcomerEffect(sys', who);
  }

  /** The step that creates the lock file. */
  lemma MoveIn(sha: Bytes -> string, s0: State, sys: System, who: nat, fails: bool)
    requires who < |sys.procs| && SystemInv(sha, s0, sys) && !Inside(sys.procs[who].pc)
    requires Inside(Move(sha, sys, who, fails).procs[who].pc)
    ensures SystemInv(sha, s0, Move(sha, sys, who, fails))
  {
    hide Step, EffectOf, EffectsPossible, Effects, Fresh;
    var p := sys.procs[who];
    StepOutside(sha, sys.shared, p.job, p.pc, fails);
    SameEffectsIn(sha, sys, who, fails);
    forall i | 0 <= i < |sys.procs| ensures !Inside(sys.procs[i].pc) { }
    FreshUnlocked(sys.shared);
  }

  lemma FreshUnlocked(sh: Shared)
    ensures forall runId :: Fresh(sh, runId) ==> Fresh(sh.(locked := true), runId)
  {
  }

  lemma NewcomerEffect(sys: System, who: nat)
    requires who < |sys.procs| && sys.procs[who].pc == Holding
    ensures EffectOf(sys.procs[who]) == []
  {
  }

  /** The serial state moves on exactly when the lock's owner takes its last step before the release. */
  lemma {:induction false} BaseAfter(sha: Bytes -> string, s0: State, sys: System, who: nat, fails: bool)
    requires who < |sys.procs| && SystemInv(sha, s0, sys) && Inside(sys.procs[who].pc)
    ensures
      var p, sys' := sys.procs[who], Move(sha, sys, who, fails);
      && Base(sha, s0, sys') == After(sha, Base(sha, s0, sys), p.job, p.pc, fails)
      && EffectsPossible(sha, s0, Effects(sys'.procs, sys'.order))
  {
    hide Step, InsideInv, EffectOf, Fresh, EffectsPossible, CanCommit;
    var p, sys' := sys.procs[who], Move(sha, sys, who, fails);
    var n := |sys.order| - 1;
    StepInside(sha, sys.shared, p.job, p.pc, fails);
    assert sys.order[n] == who && who !in sys.order[..n];
    EffectsSame(sys.procs, sys'.procs, sys.order[..n]);
    var earlier := Effects(sys.procs, sys.order[..n]);
    if p.pc.Published? {
      var e := if fails then EntryOnly(p.job) else Whole(p.job);
      assert Effects(sys.procs, sys.order) == earlier;
      assert Effects(sys'.procs, sys.order) == earlier + [e];
      SerialNext(sha, s0, earlier, e);
      PublishedCan(sha, sys.shared, p.job, p.pc, Base(sha, s0, sys));
      PossibleNext(sha, s0, earlier, e);
    } else {
      assert Effects(sys'.procs, sys.order) == Effects(sys.procs, sys.order);
    }
  }

  lemma InsideKeepsLock(sha: Bytes -> string, sys: System, who: nat, fails: bool)
    requires who < |sys.procs| && LockInv(sys) && Inside(sys.procs[who].pc)
    ensures LockInv(Move(sha, sys, who, fails))
  {
    hide Step, EffectOf;
    StepInside(sha, sys.shared, sys.procs[who].job, sys.procs[who].pc, fails);
  }

  lemma InsideKeepsFresh(sha: Bytes -> string, s0: State, sys: System, who: nat, fails: bool)
    requires who < |sys.procs| && SystemInv(sha, s0, sys) && Inside(sys.procs[who].pc)
    ensures FreshInv(Move(sha, sys, who, fails))
  {
    hide Step, InsideInv, Fresh, EffectsPossible, Base, LockInv;
    var p, sys' := sys.procs[who], Move(sha, sys, who, fails);
    StepInside(sha, sys.shared, p.job, p.pc, fails);
    forall i | 0 <= i < |sys.procs| && BeforeLock(sys'.procs[i].pc)
      ensures Fresh(sys'.shared, sys.procs[i].job.runId)
    {
      StepOwnRun(sha, sys.shared, p.job, p.pc, fails, sys.procs[i].job.runId, Base(sha, s0, sys));
    }
  }

  lemma {:induction false} MoveParts(sha: Bytes -> string, sys: System, who: nat, fails: bool)
    requires who < |sys.procs| && Inside(sys.procs[who].pc)
    ensures
      var p, sys' := sys.procs[who], Move(sha, sys, who, fails);
      var (sh, pc) := Step(sha, sys.shared, p.job, p.pc, fails);
      sys'.shared == sh && sys'.order == sys.order && sys'.procs == sys.procs[who := Proc(p.job, pc)]
  {
    hide Step;
  }

  lemma InsideKeepsSerial(sha: Bytes -> string, s0: State, sys: System, who: nat, fails: bool)
    requires who < |sys.procs| && SystemInv(sha, s0, sys) && Inside(sys.procs[who].pc)
    ensures SerialInv(sha, s0, Move(sha, sys, who, fails))
  {
    BaseAfter(sha, s0, sys, who, fails);
    MoveParts(sha, sys, who, fails);
    hide Step, Move, After, EffectOf, InsideInv, Fresh, FreshInv, EffectsPossible, Effects, Base;
    var p := sys.procs[who];
    StepInside(sha, sys.shared, p.job, p.pc, fails);
    InsideSteps(sha, sys.shared, p.job, p.pc, fails, Base(sha, s0, sys));
  }

  /** A step by the process that has the lock. */
  lemma MoveInside(sha: Bytes -> string, s0: State, sys: System, who: nat, fails: bool)
    requires who < |sys.procs| && SystemInv(sha, s0, sys) && Inside(sys.procs[who].pc)
    ensures SystemInv(sha, s0, Move(sha, sys, who, fails))
  {
    InsideKeepsLock(sha, sys, who, fails);
    InsideKeepsFresh(sha, s0, sys, who, fails);
    InsideKeepsSerial(sha, s0, sys, who, fails);
    hide Step, LockInv, FreshInv, SerialInv;
  }

  lemma PublishedCan(sha: Bytes -> string, sh: Shared, job: Job, pc: Pc, base: State)
    requires pc.Published? && InsideInv(sha, sh, job, pc, base)
    ensures CanCommit(base, job)
  {
  }

  /** A system about to start: nobody has moved, the lock is free, and every run id is new and different. */
  ghost predicate Initial(sys: System) {
    && DistinctRuns(sys.procs) && sys.order == [] && !sys.shared.locked
    && forall i | 0 <= i < |sys.procs| :: sys.procs[i].pc == Start && Fresh(sys.shared, sys.procs[i].job.runId)
  }

  lemma {:induction false} AlwaysSerial(sha: Bytes -> string, sys: System, schedule: seq<(nat, bool)>)
    requires Initial(sys)
    ensures SystemInv(sha, sys.shared.Durable(), Interleave(sha, sys, schedule))
    ensures |Interleave(sha, sys, schedule).procs| == |sys.procs|
  {
    if schedule != [] {
      var n := |schedule| - 1;
      AlwaysSerial(sha, sys, schedule[..n]);
      var before, who, fails := Interleave(sha, sys, schedule[..n]), schedule[n].0, schedule[n].1;
      hide SystemInv, Move;
      MoveKeepsSize(sha, before, who, fails);
      MoveKeeps(sha, sys.shared.Durable(), before, who, fails);
    }
  }

  lemma MoveKeepsSize(sha: Bytes -> string, sys: System, who: nat, fails: bool)
    ensures |Move(sha, sys, who, fails).procs| == |sys.procs|
  {
  }

  lemma MoveKeeps(sha: Bytes -> string, s0: State, sys: System, who: nat, fails: bool)
    requires SystemInv(sha, s0, sys)
    ensures SystemInv(sha, s0, Move(sha, sys, who, fails))
  {
    hide SystemInv;
    if who < |sys.procs| {
      if Inside(sys.procs[who].pc) {
        MoveInside(sha, s0, sys, who, fails);
      } else if Inside(Move(sha, sys, who, fails).procs[who].pc) {
        MoveIn(sha, s0, sys, who, fails);
      } else {
        MoveOutside(sha, s0, sys, who, fails);
      }
    }
  }

  /**
   * Serialisability. Whatever the interleaving and wherever calls fail, at most one process is inside the
   * lock; and whenever none is, the live files, the registry and the backups are exactly those of the
   * finished applies run one after another in the order in which they took the lock. Applies that were
   * refused or rolled back contribute nothing.
   */
  lemma {:induction false} Serialisable(sha: Bytes -> string, sys: System, schedule: seq<(nat, bool)>)
    requires Initial(sys)
    ensures
      var end := Interleave(sha, sys, schedule);
      var effects := Effects(end.procs, end.order);
      && (forall i, j | 0 <= i < |end.procs| && 0 <= j < |end.procs| ::
            Inside(end.procs[i].pc) && Inside(end.procs[j].pc) ==> i == j)
      && NoDuplicates(end.order)
      && (forall w: nat :: w in end.order <==> w < |end.procs| && Took(end.procs[w].pc))
      && EffectsPossible(sha, sys.shared.Durable(), effects)
      && ((forall i | 0 <= i < |end.procs| :: !Inside(end.procs[i].pc)) ==>
            end.shared.Durable() == Serial(sha, sys.shared.Durable(), effects))
  {
    AlwaysSerial(sha, sys, schedule);
    hide InsideInv, EffectsPossible, Fresh;
  }

  // ---- one process alone -------------------------------------------------------------------------

  /** A lone process has the lock file exactly while it is inside, or when it failed to fill it in. */
  ghost predicate LockMatches(sh: Shared, job: Job, pc: Pc) {
    && (sh.locked <==> Inside(pc) || pc == Ended(Threw(LockLeaked)))
    && (pc.Ended? && pc.result.Done? ==> pc.result.runId == job.runId)
  }

  lemma StepMatches(sha: Bytes -> string, sh: Shared, job: Job, pc: Pc, fails: bool)
    requires LockMatches(sh, job, pc)
    ensures LockMatches(Step(sha, sh, job, pc, fails).0, job, Step(sha, sh, job, pc, fails).1)
  {
    hide Took, RestoreEntry, EntryFor, HasRun, ValidFiles;
  }

  function Solo(sh: Shared, job: Job): System {
    System(sh, [Proc(job, Start)], [])
  }

  lemma {:induction false} SoloMatches(sha: Bytes -> string, sh: Shared, job: Job, schedule: seq<(nat, bool)>)
    requires !sh.locked
    ensures
      var end := Interleave(sha, Solo(sh, job), schedule);
      |end.procs| == 1 && end.procs[0].job == job && LockMatches(end.shared, job, end.procs[0].pc)
  {
    hide Step, LockMatches;
    if schedule == [] {
      StartMatches(sh, job);
    } else {
      var n := |schedule| - 1;
      SoloMatches(sha, sh, job, schedule[..n]);
      var before := Interleave(sha, Solo(sh, job), schedule[..n]);
      StepMatches(sha, before.shared, job, before.procs[0].pc, schedule[n].1);
    }
  }

  lemma StartMatches(sh: Shared, job: Job)
    requires !sh.locked
    ensures LockMatches(sh, job, Start)
  {
  }

  /** The step-by-step form agrees with the method: alone, a process ends as `ApplyPlan` may. */
  lemma {:induction false} SoloRunAllowed(sha: Bytes -> string, sh: Shared, job: Job, schedule: seq<(nat, bool)>)
    requires !sh.locked && Fresh(sh, job.runId)
    ensures
      var end := Interleave(sha, Solo(sh, job), schedule);
      && |end.procs| == 1
      && (end.procs[0].pc.Ended? ==>
            Outcome(sha, sh.Durable(), false, job, end.procs[0].pc.result, end.shared.Durable(), end.shared.locked))
  {
    hide Step, Interleave, CanCommit, Commit;
    SoloMatches(sha, sh, job, schedule);
    Serialisable(sha, Solo(sh, job), schedule);
    var end := Interleave(sha, Solo(sh, job), schedule);
    if end.procs[0].pc.Ended? {
      SoloOrder(end);
      SoloEnd(sha, sh, job, end);
    }
  }

  /** The only process took the lock, or none did. */
  lemma SoloOrder(end: System)
    requires |end.procs| == 1 && NoDuplicates(end.order)
    requires forall w: nat :: w in end.order <==> w < 1 && Took(end.procs[w].pc)
    ensures end.order == if Took(end.procs[0].pc) then [0] else []
  {
    hide Took;
    assert |end.order| < 2 || end.order[0] != end.order[1];
    assert end.order == [] || end.order[0] in end.order;
    forall i | 0 <= i < |end.order| ensures end.order[i] == 0 { assert end.order[i] in end.order; }
    assert Took(end.procs[0].pc) <==> 0 in end.order;
  }

  lemma SoloEnd(sha: Bytes -> string, sh: Shared, job: Job, end: System)
    requires |end.procs| == 1 && end.procs[0].job == job && end.procs[0].pc.Ended? && Fresh(sh, job.runId)
    requires LockMatches(end.shared, job, end.procs[0].pc)
    requires end.order == if Took(end.procs[0].pc) then [0] else []
    requires EffectsPossible(sha, sh.Durable(), Effects(end.procs, end.order))
    requires end.shared.Durable() == Serial(sha, sh.Durable(), Effects(end.procs, end.order))
    ensures Outcome(sha, sh.Durable(), false, job, end.procs[0].pc.result, end.shared.Durable(), end.shared.locked)
  {
    hide CanCommit, Commit, HasRun, Outcome, EffectOf, Took;
    var s, p, effects := sh.Durable(), end.procs[0], Effects(end.procs, end.order);
    assert [0][..0] == [];
    assert effects == if Took(p.pc) then EffectOf(p) else [];
    EndedEffect(job, p.pc.result);
    if effects != [] {
      assert effects[..0] == [];
      assert CanCommit(s, effects[0].job);
    }
    EndOutcome(sha, s, job, p.pc.result, end.shared.Durable(), end.shared.locked);
  }

  lemma {:induction false} EndedEffect(job: Job, r: ApplyResult)
    ensures var e := EffectOf(Proc(job, Ended(r)));
      |e| <= 1 && (e != [] ==> e[0].job == job && Took(Ended(r)))
  {
  }

  lemma EndOutcome(sha: Bytes -> string, s: State, job: Job, r: ApplyResult, after: State, locked: bool)
    requires job.runId !in s.backups && !HasRun(s.registry, job.runId)
    requires r.Done? ==> r.runId == job.runId
    requires locked == (r == Threw(LockLeaked))
    requires var e := EffectOf(Proc(job, Ended(r)));
      if e == [] then after == s else CanCommit(s, job) && after == Serial1(sha, s, e[0])
    ensures Outcome(sha, s, false, job, r, after, locked)
  {
    hide CanCommit, HasRun, RunOf, Append;
    assert s.backups - {job.runId} == s.backups;
  }

  // ---- a lock file left behind -----------------------------------------------------------------

  ghost predicate Leaked(sys: System) {
    exists i :: 0 <= i < |sys.procs| && sys.procs[i].pc == Ended(Threw(LockLeaked))
  }

  /** The lock file is there and nobody who could remove it is left. */
  ghost predicate Stuck(sys: System) {
    sys.shared.locked && forall i | 0 <= i < |sys.procs| :: !Inside(sys.procs[i].pc)
  }

  lemma LeakOnlyFromHolding(sha: Bytes -> string, sh: Shared, job: Job, pc: Pc, fails: bool)
    requires Step(sha, sh, job, pc, fails).1 == Ended(Threw(LockLeaked)) && pc != Ended(Threw(LockLeaked))
    ensures pc.Holding? && Step(sha, sh, job, pc, fails).0 == sh
  {
  }

  lemma {:induction false} MoveKeepsStuck(sha: Bytes -> string, sys: System, who: nat, fails: bool)
    requires Stuck(sys)
    ensures
      var sys' := Move(sha, sys, who, fails);
      && Stuck(sys') && sys'.shared == sys.shared && |sys'.procs| == |sys.procs|
      && forall j | 0 <= j < |sys.procs| && !Took(sys.procs[j].pc) :: !Took(sys'.procs[j].pc)
  {
    if who < |sys.procs| {
      StepOutside(sha, sys.shared, sys.procs[who].job, sys.procs[who].pc, fails);
    }
  }

  lemma {:induction false} LeakedIsStuck(sha: Bytes -> string, sys: System, schedule: seq<(nat, bool)>)
    requires Initial(sys)
    ensures Leaked(Interleave(sha, sys, schedule)) ==> Stuck(Interleave(sha, sys, schedule))
  {
    if schedule != [] {
      var n := |schedule| - 1;
      var before, who, fails := Interleave(sha, sys, schedule[..n]), schedule[n].0, schedule[n].1;
      LeakedIsStuck(sha, sys, schedule[..n]);
      AlwaysSerial(sha, sys, schedule[..n]);
      hide Step, FreshInv, SerialInv, Took;
      var after := Move(sha, before, who, fails);
      if Leaked(before) {
        MoveKeepsStuck(sha, before, who, fails);
      } else if Leaked(after) {
        var i :| 0 <= i < |after.procs| && after.procs[i].pc == Ended(Threw(LockLeaked));
        assert before.procs[i].pc != Ended(Threw(LockLeaked));
        assert i == who;
        LeakOnlyFromHolding(sha, before.shared, before.procs[who].job, before.procs[who].pc, fails);
      }
    }
  }

  /**
   * If filling in a freshly created lock file ever fails, the file stays: from then on no process, in any
   * continuation, changes the target or takes the lock.
   */
  lemma {:induction false} LeakStopsEveryone(
      sha: Bytes -> string, sys: System, schedule: seq<(nat, bool)>, more: seq<(nat, bool)>)
    requires Initial(sys) && Leaked(Interleave(sha, sys, schedule))
    ensures
      var held := Interleave(sha, sys, schedule);
      var later := Interleave(sha, held, more);
      && Stuck(later) && later.shared == held.shared && |later.procs| == |held.procs|
      && forall j | 0 <= j < |held.procs| && !Took(held.procs[j].pc) :: !Took(later.procs[j].pc)
    decreases |more|
  {
    LeakedIsStuck(sha, sys, schedule);
    if more != [] {
      var n := |more| - 1;
      LeakStopsEveryone(sha, sys, schedule, more[..n]);
      hide Took, Stuck, Move, Leaked;
      MoveKeepsStuck(sha, Interleave(sha, Interleave(sha, sys, schedule), more[..n]), more[n].0, more[n].1);
    }
  }

  // ---- where the exceptions come from ------------------------------------------------------------

  /** The process is why the lock file is there. */
  predicate HasLock(pc: Pc) {
    Inside(pc) || pc == Ended(Threw(LockLeaked))
  }

  ghost predicate LockAccounted(sys: System) {
    sys.shared.locked <==> exists i :: 0 <= i < |sys.procs| && HasLock(sys.procs[i].pc)
  }

  /** A step by a process that has the lock, or gets it: nobody else has, and it is locked as long as it does. */
  lemma OwnerStep(sha: Bytes -> string, sys: System, who: nat, fails: bool)
    requires who < |sys.procs|
    requires forall j | 0 <= j < |sys.procs| && j != who :: !HasLock(sys.procs[j].pc)
    requires LockMatches(sys.shared, sys.procs[who].job, sys.procs[who].pc)
    ensures LockAccounted(Move(sha, sys, who, fails))
  {
    hide Step, HasLock;
    var p, after := sys.procs[who], Move(sha, sys, who, fails);
    StepMatches(sha, sys.shared, p.job, p.pc, fails);
    MatchesHas(after.shared, p.job, after.procs[who].pc);
    assert after.shared.locked <==> HasLock(after.procs[who].pc);
    assert forall j | 0 <= j < |sys.procs| && j != who :: after.procs[j] == sys.procs[j];
  }

  lemma MatchesHas(sh: Shared, job: Job, pc: Pc)
    ensures LockMatches(sh, job, pc) ==> (sh.locked <==> HasLock(pc))
    ensures !pc.Ended? && (sh.locked <==> HasLock(pc)) ==> LockMatches(sh, job, pc)
  {
  }

  /** A step outside the lock, to outside the lock. */
  lemma BystanderStep(sha: Bytes -> string, sys: System, who: nat, fails: bool)
    requires who < |sys.procs| && !Inside(sys.procs[who].pc) && !Inside(Move(sha, sys, who, fails).procs[who].pc)
    requires LockAccounted(sys)
    ensures LockAccounted(Move(sha, sys, who, fails))
  {
    var p, after := sys.procs[who], Move(sha, sys, who, fails);
    StepOutside(sha, sys.shared, p.job, p.pc, fails);
    EndedStays(sha, sys.shared, p.job, p.pc, fails);
    hide Step, Inside;
    assert HasLock(after.procs[who].pc) <==> HasLock(p.pc);
    assert forall j | 0 <= j < |sys.procs| :: HasLock(after.procs[j].pc) <==> HasLock(sys.procs[j].pc);
  }

  lemma EndedStays(sha: Bytes -> string, sh: Shared, job: Job, pc: Pc, fails: bool)
    requires !Inside(pc)
    ensures pc == Ended(Threw(LockLeaked)) <==> Step(sha, sh, job, pc, fails).1 == Ended(Threw(LockLeaked))
  {
  }

  /** At every moment the lock file is there exactly if a process holds it, or failed to fill it in. */
  lemma {:induction false} LockedExactly(sha: Bytes -> string, sys: System, schedule: seq<(nat, bool)>)
    requires Initial(sys)
    ensures LockAccounted(Interleave(sha, sys, schedule))
  {
    hide Step, SerialInv, FreshInv, LockAccounted, Move;
    if schedule == [] {
      NobodyAtFirst(sys);
    } else {
      var n := |schedule| - 1;
      var before, who, fails := Interleave(sha, sys, schedule[..n]), schedule[n].0, schedule[n].1;
      LockedExactly(sha, sys, schedule[..n]);
      AlwaysSerial(sha, sys, schedule[..n]);
      LeakedIsStuck(sha, sys, schedule[..n]);
      if who < |before.procs| {
        AccountedStep(sha, before, who, fails);
      } else {
        assert Move(sha, before, who, fails) == before by { NoMove(sha, before, who, fails); }
      }
    }
  }

  lemma NoMove(sha: Bytes -> string, sys: System, who: nat, fails: bool)
    requires who >= |sys.procs|
    ensures Move(sha, sys, who, fails) == sys
  {
  }

  lemma NobodyAtFirst(sys: System)
    requires Initial(sys)
    ensures LockAccounted(sys)
  {
  }

  lemma AccountedStep(sha: Bytes -> string, sys: System, who: nat, fails: bool)
    requires who < |sys.procs| && LockInv(sys) && LockAccounted(sys) && (Leaked(sys) ==> Stuck(sys))
    ensures LockAccounted(Move(sha, sys, who, fails))
  {
    hide Step, Took;
    var p := sys.procs[who];
    if Inside(p.pc) {
      OthersWithout(sys, who);
      MatchesHas(sys.shared, p.job, p.pc);
      OwnerStep(sha, sys, who, fails);
    } else if Inside(Move(sha, sys, who, fails).procs[who].pc) {
      StepOutside(sha, sys.shared, p.job, p.pc, fails);
      MatchesHas(sys.shared, p.job, p.pc);
      OwnerStep(sha, sys, who, fails);
    } else {
      BystanderStep(sha, sys, who, fails);
    }
  }

  lemma OthersWithout(sys: System, who: nat)
    requires who < |sys.procs| && LockInv(sys) && (Leaked(sys) ==> Stuck(sys)) && Inside(sys.procs[who].pc)
    ensures sys.shared.locked && forall j | 0 <= j < |sys.procs| && j != who :: !HasLock(sys.procs[j].pc)
  {
    hide Took, Inside;
  }

  /** So the lock file stands without an owner exactly if filling it in has failed. */
  lemma StuckExactly(sha: Bytes -> string, sys: System, schedule: seq<(nat, bool)>)
    requires Initial(sys)
    ensures Stuck(Interleave(sha, sys, schedule)) <==> Leaked(Interleave(sha, sys, schedule))
  {
    hide Interleave, Inside, Initial;
    LockedExactly(sha, sys, schedule);
    LeakedIsStuck(sha, sys, schedule);
  }

  /** The process has a registry entry but not the rest of its apply. */
  predicate Marked(pc: Pc) {
    match pc
    case Undoing(_, _, entry) => entry
    case Cleaning(entry) => entry
    case Unlocking(entry) => entry
    case Ended(result) => result == Threw(AfterCommit)
    case _ => false
  }

  lemma StepMarked(sha: Bytes -> string, sh: Shared, job: Job, pc: Pc, fails: bool)
    ensures Marked(Step(sha, sh, job, pc, fails).1) <==> Marked(pc) || (pc.Published? && fails)
  {
    hide RestoreEntry, EntryFor, HasRun, ValidFiles;
  }

  /** In this schedule the chmod after a rename of the registry fails. */
  predicate ChmodFails(sha: Bytes -> string, sys: System, schedule: seq<(nat, bool)>) {
    if schedule == [] then false
    else
      var n := |schedule| - 1;
      var before, who := Interleave(sha, sys, schedule[..n]), schedule[n].0;
      || ChmodFails(sha, sys, schedule[..n])
      || (who < |before.procs| && before.procs[who].pc.Published? && schedule[n].1)
  }

  ghost predicate SomeMarked(sys: System) {
    exists i :: 0 <= i < |sys.procs| && Marked(sys.procs[i].pc)
  }

  lemma MoveMarked(sha: Bytes -> string, sys: System, who: nat, fails: bool)
    ensures SomeMarked(Move(sha, sys, who, fails)) <==>
      SomeMarked(sys) || (who < |sys.procs| && sys.procs[who].pc.Published? && fails)
  {
    hide Step, Marked;
    if who < |sys.procs| {
      var after := Move(sha, sys, who, fails);
      StepMarked(sha, sys.shared, sys.procs[who].job, sys.procs[who].pc, fails);
      assert forall j | 0 <= j < |sys.procs| && j != who :: after.procs[j] == sys.procs[j];
      if i :| 0 <= i < |sys.procs| && Marked(sys.procs[i].pc) { assert Marked(after.procs[i].pc); }
      if sys.procs[who].pc.Published? && fails { assert Marked(after.procs[who].pc); }
    }
  }

  lemma {:induction false} MarkedExactly(sha: Bytes -> string, sys: System, schedule: seq<(nat, bool)>)
    requires Initial(sys)
    ensures SomeMarked(Interleave(sha, sys, schedule)) <==> ChmodFails(sha, sys, schedule)
  {
    hide Move, Marked;
    if schedule == [] {
      assert !SomeMarked(sys) by { NoneMarked(sys); }
    } else {
      var n := |schedule| - 1;
      MarkedExactly(sha, sys, schedule[..n]);
      MoveMarked(sha, Interleave(sha, sys, schedule[..n]), schedule[n].0, schedule[n].1);
    }
  }

  lemma NoneMarked(sys: System)
    requires Initial(sys)
    ensures !SomeMarked(sys)
  {
  }

  lemma EffectMarked(p: Proc)
    ensures forall e | e in EffectOf(p) :: e.EntryOnly? <==> Marked(p.pc)
    ensures Marked(p.pc) ==> EffectOf(p) != [] && Took(p.pc)
  {
  }

  lemma {:induction false} EffectsMarked(procs: seq<Proc>, order: seq<nat>)
    ensures (exists e :: e in Effects(procs, order) && e.EntryOnly?) <==>
      exists w: nat :: w in order && w < |procs| && Marked(procs[w].pc)
  {
    hide EffectOf, Marked;
    if order != [] {
      var n := |order| - 1;
      var last := order[n];
      EffectsMarked(procs, order[..n]);
      assert order == order[..n] + [last];
      if last < |procs| {
        EffectMarked(procs[last]);
        if Marked(procs[last].pc) {
          var e := EffectOf(procs[last])[0];
          assert e in EffectOf(procs[last]) && e in Effects(procs, order);
        }
      }
    }
  }

  /** A run leaves more than nothing and less than a whole apply exactly if such a chmod fails. */
  lemma {:induction false} WholeExactly(sha: Bytes -> string, sys: System, schedule: seq<(nat, bool)>)
    requires Initial(sys)
    ensures
      var end := Interleave(sha, sys, schedule);
      (forall e | e in Effects(end.procs, end.order) :: e.Whole?) <==> !ChmodFails(sha, sys, schedule)
  {
    hide Interleave, Effects, Marked, ChmodFails, Initial, EffectOf, EffectsPossible, Inside;
    var end := Interleave(sha, sys, schedule);
    MarkedExactly(sha, sys, schedule);
    Serialisable(sha, sys, schedule);
    EffectsMarked(end.procs, end.order);
    forall w: nat | w < |end.procs| && Marked(end.procs[w].pc) ensures w in end.order { EffectMarked(end.procs[w]); }
  }
}
