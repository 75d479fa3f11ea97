/** What rolling back does over a whole history of successful applies. */
module RuntimeHistory {
  import opened Basics
  import opened RuntimeModel

  /** The state after a history of successful applies. */
  function CommitAll(sha: Bytes -> string, s: State, jobs: seq<Job>): State {
    if jobs == [] then s
    else Commit(sha, CommitAll(sha, s, jobs[..|jobs| - 1]), jobs[|jobs| - 1])
  }

  /** Each job of the history could commit when its turn came. */
  ghost predicate Possible(sha: Bytes -> string, s: State, jobs: seq<Job>) {
    forall k | 0 <= k < |jobs| :: CanCommit(CommitAll(sha, s, jobs[..k]), jobs[k])
  }

  /** Rolling back one recorded run changes the live files only. */
  function Undo(s: State, runId: string, createMode: Mode): State {
    var run := FindRun(RunsIn(s.registry), runId);
    if run.Some? && runId in s.backups
    then s.(live := Rollback(s.live, run.value.backup, s.backups[runId], createMode))
    else s
  }

  /** Roll back the last of these jobs first, then the one before it, and so on. */
  function UndoBackwards(s: State, jobs: seq<Job>, createMode: Mode): State
    decreases |jobs|
  {
    if jobs == [] then s
    else UndoBackwards(Undo(s, jobs[|jobs| - 1].runId, createMode), jobs[..|jobs| - 1], createMode)
  }

  /** What run k recorded: an entry list and a backup taken from the state just before it. */
  ghost predicate Recorded(sha: Bytes -> string, s: State, job: Job, before: Files) {
    && FindRun(RunsIn(s.registry), job.runId)
         == Some(RunOf(sha, before, job.plan, job.runId, job.digest, job.reason))
    && job.runId in s.backups
    && s.backups[job.runId] == BackupOf(before, job.plan)
  }

  lemma {:induction false} FindAppended(runs: seq<Run>, run: Run, runId: string)
    ensures FindRun(runs + [run], runId) ==
            if FindRun(runs, runId).Some? then FindRun(runs, runId)
            else if run.runId == runId then Some(run) else None
  {
    if runs == [] {
      assert runs + [run] == [run];
    } else {
      assert (runs + [run])[1..] == runs[1..] + [run];
      FindAppended(runs[1..], run, runId);
    }
  }

  lemma CommitRecords(sha: Bytes -> string, s: State, job: Job)
    requires CanCommit(s, job)
    ensures Recorded(sha, Commit(sha, s, job), job, s.live)
  {
    FindAppended(RunsIn(s.registry), RunOf(sha, s.live, job.plan, job.runId, job.digest, job.reason), job.runId);
  }

  lemma CommitKeepsRecords(sha: Bytes -> string, s: State, job: Job, earlier: Job, before: Files)
    requires CanCommit(s, job) && Recorded(sha, s, earlier, before)
    ensures Recorded(sha, Commit(sha, s, job), earlier, before)
  {
    FindAppended(RunsIn(s.registry), RunOf(sha, s.live, job.plan, job.runId, job.digest, job.reason), earlier.runId);
  }

  /** What a run recorded stays readable through every later apply. */
  lemma {:induction false} RecordsLast(sha: Bytes -> string, s: State, jobs: seq<Job>, k: nat)
    requires k < |jobs| && Possible(sha, s, jobs)
    ensures Recorded(sha, CommitAll(sha, s, jobs), jobs[k], CommitAll(sha, s, jobs[..k]).live)
  {
    var n := |jobs| - 1;
    var earlier := jobs[..n];
    assert CanCommit(CommitAll(sha, s, jobs[..n]), jobs[n]);
    if k == n {
      CommitRecords(sha, CommitAll(sha, s, earlier), jobs[n]);
    } else {
      assert earlier[..k] == jobs[..k];
      PrefixPossible(sha, s, jobs, n);
      RecordsLast(sha, s, earlier, k);
      CommitKeepsRecords(sha, CommitAll(sha, s, earlier), jobs[n], jobs[k], CommitAll(sha, s, jobs[..k]).live);
    }
  }

  lemma PrefixPossible(sha: Bytes -> string, s: State, jobs: seq<Job>, n: nat)
    requires Possible(sha, s, jobs) && n <= |jobs|
    ensures Possible(sha, s, jobs[..n])
  {
    forall k | 0 <= k < n ensures CanCommit(CommitAll(sha, s, jobs[..n][..k]), jobs[..n][k]) {
      assert jobs[..n][..k] == jobs[..k];
    }
  }

  /** Undoing a recorded run: its own paths go back to what they were, all others stay as they are. */
  lemma {:induction false} UndoRecorded(sha: Bytes -> string, s: State, job: Job, before: Files, createMode: Mode)
    requires Recorded(sha, s, job, before)
    ensures
      var r := Undo(s, job.runId, createMode);
      && r == s.(live := r.live)
      && AgreeOutside(r.live, s.live, Paths(job.plan))
      && (forall p | p in Paths(job.plan) :: SameAt(r.live, before, p))
      && (AgreeOutside(s.live, before, Paths(job.plan)) <==> r.live == before)
  {
    SecondPassIdle(sha, before, s.live, job.plan, createMode);
    RestoreLocal(sha, before, s.live, job.plan);
    var r := Undo(s, job.runId, createMode);
    if AgreeOutside(s.live, before, Paths(job.plan)) {
      RestoreExact(sha, before, s.live, job.plan);
    }
    if r.live == before {
      forall p | p !in Paths(job.plan) ensures SameAt(s.live, before, p) {
        assert SameAt(r.live, s.live, p);
      }
    }
  }

  /** The final state's registry and backups, with the live files as they were before job k. */
  ghost function BackTo(sha: Bytes -> string, s: State, jobs: seq<Job>, k: nat): State
    requires k <= |jobs|
  {
    CommitAll(sha, s, jobs).(live := CommitAll(sha, s, jobs[..k]).live)
  }

  lemma CommitAllStep(sha: Bytes -> string, s: State, jobs: seq<Job>, k: nat)
    requires k < |jobs|
    ensures CommitAll(sha, s, jobs[..k + 1]) == Commit(sha, CommitAll(sha, s, jobs[..k]), jobs[k])
  {
    assert jobs[..k + 1][..k] == jobs[..k];
  }

  lemma UndoStep(sha: Bytes -> string, s: State, jobs: seq<Job>, k: nat, createMode: Mode)
    requires k < |jobs| && Possible(sha, s, jobs)
    ensures Undo(BackTo(sha, s, jobs, k + 1), jobs[k].runId, createMode) == BackTo(sha, s, jobs, k)
  {
    RecordsLast(sha, s, jobs, k);
    CommitAllStep(sha, s, jobs, k);
    hide CommitAll, Possible, Undo, Applied, Paths, AgreeOutside;
    var before := CommitAll(sha, s, jobs[..k]).live;
    AppliedElsewhere(before, jobs[k].plan);
    UndoRecorded(sha, BackTo(sha, s, jobs, k + 1), jobs[k], before, createMode);
  }

  /** Rolling back jobs k-1, k-2, ... 0 from there ends with the initial live files. */
  lemma {:induction false} UndoPrefix(sha: Bytes -> string, s: State, jobs: seq<Job>, k: nat, createMode: Mode)
    requires k <= |jobs| && Possible(sha, s, jobs)
    ensures UndoBackwards(BackTo(sha, s, jobs, k), jobs[..k], createMode).live == s.live
  {
    if k == 0 {
      assert jobs[..0] == [];
    } else {
      UndoStep(sha, s, jobs, k - 1, createMode);
      UndoPrefix(sha, s, jobs, k - 1, createMode);
      hide CommitAll, Undo, BackTo, Possible;
      UndoLast(BackTo(sha, s, jobs, k), jobs, k, createMode);
    }
  }

  lemma UndoLast(t: State, jobs: seq<Job>, k: nat, createMode: Mode)
    requires 0 < k <= |jobs|
    ensures UndoBackwards(t, jobs[..k], createMode)
         == UndoBackwards(Undo(t, jobs[k - 1].runId, createMode), jobs[..k - 1], createMode)
  {
    assert jobs[..k][..k - 1] == jobs[..k - 1];
  }

  /** Undoing a whole history, last run first, gives back the initial bytes, modes and absences. */
  lemma UndoHistory(sha: Bytes -> string, s: State, jobs: seq<Job>, createMode: Mode)
    requires Possible(sha, s, jobs)
    ensures UndoBackwards(CommitAll(sha, s, jobs), jobs, createMode).live == s.live
  {
    assert jobs[..|jobs|] == jobs;
    UndoPrefix(sha, s, jobs, |jobs|, createMode);
  }

  /** Live files outside the paths of jobs k.. have not changed since before job k. */
  lemma {:induction false} LaterPaths(sha: Bytes -> string, s: State, jobs: seq<Job>, k: nat, p: string)
    requires k <= |jobs|
    requires forall j | k <= j < |jobs| :: p !in Paths(jobs[j].plan)
    ensures SameAt(CommitAll(sha, s, jobs).live, CommitAll(sha, s, jobs[..k]).live, p)
  {
    var n := |jobs| - 1;
    if k == |jobs| {
      assert jobs[..k] == jobs;
    } else {
      LaterPaths(sha, s, jobs[..n], k, p);
      assert jobs[..n][..k] == jobs[..k];
      AppliedElsewhere(CommitAll(sha, s, jobs[..n]).live, jobs[n].plan);
      assert SameAt(CommitAll(sha, s, jobs).live, CommitAll(sha, s, jobs[..n]).live, p);
    }
  }

  /**
   * Rolling back run k alone, with later runs still applied, goes back to the files before run k when
   * run k's paths cover those of every later run.
   */
  lemma UndoAlone(sha: Bytes -> string, s: State, jobs: seq<Job>, k: nat, createMode: Mode)
    requires k < |jobs| && Possible(sha, s, jobs)
    requires forall j | k < j < |jobs| :: Paths(jobs[j].plan) <= Paths(jobs[k].plan)
    ensures Undo(CommitAll(sha, s, jobs), jobs[k].runId, createMode).live == CommitAll(sha, s, jobs[..k]).live
  {
    var now, before := CommitAll(sha, s, jobs), CommitAll(sha, s, jobs[..k]).live;
    RecordsLast(sha, s, jobs, k);
    forall p | p !in Paths(jobs[k].plan) ensures SameAt(now.live, before, p) {
      LaterPaths(sha, s, jobs, k, p);
    }
    UndoRecorded(sha, now, jobs[k], before, createMode);
  }

  // ---- rolling back twice ----------------------------------------------------------------------

  /** Some entry decides what a restored path holds, whatever was there. */
  ghost predicate Decided(entries: seq<BackupEntry>, backup: Files, p: string) {
    exists e | e in entries :: e.path == p && (e.existed ==> p in backup)
  }

  lemma {:induction false} RestoreDecides(x: Files, y: Files, entries: seq<BackupEntry>, backup: Files, p: string)
    ensures Decided(entries, backup, p) ==> SameAt(Restore(x, entries, backup), Restore(y, entries, backup), p)
    ensures !Decided(entries, backup, p) ==> SameAt(Restore(x, entries, backup), x, p)
  {
    if entries != [] {
      var n := |entries| - 1;
      assert entries == entries[..n] + [entries[n]];
      RestoreDecides(x, y, entries[..n], backup, p);
      assert Decided(entries, backup, p) <==>
        Decided(entries[..n], backup, p) || (entries[n].path == p && (entries[n].existed ==> p in backup));
    }
  }

  /** Rolling back twice is rolling back once, whatever the registry recorded and the directory holds. */
  lemma {:induction false} RollbackTwice(live: Files, entries: seq<BackupEntry>, backup: Files, createMode: Mode)
    ensures
      var once := Rollback(live, entries, backup, createMode);
      Rollback(once, entries, backup, createMode) == once
  {
    var once := Rollback(live, entries, backup, createMode);
    var twice := Rollback(once, entries, backup, createMode);
    forall p: string ensures SameAt(twice, once, p) {
      RestoreDecides(live, once, entries, backup, p);
      RestoreDecides(once, live, entries, backup, p);
    }
    SameEverywhere(twice, once);
  }

  /** An apply whose registry rename happened but whose last chmod failed leaves a run nobody can roll back. */
  lemma {:induction false} AfterCommitNotRollable(sha: Bytes -> string, s: State, job: Job, createMode: Mode)
    requires CanCommit(s, job)
    ensures
      var left := s.(registry := Commit(sha, s, job).registry);
      && HasRun(left.registry, job.runId)
      && Undo(left, job.runId, createMode) == left
      && !CanCommit(left, job)
  {
    var run := RunOf(sha, s.live, job.plan, job.runId, job.digest, job.reason);
    assert run in RunsIn(Append(s.registry, run));
  }
}
