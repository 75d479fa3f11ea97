# Portable agent asset hub: a verified model of its stateful core

The hub installs rendered files into a target directory, exports and migrates data, and pins directory trees
with manifests. What it promises about these is about state over time: an interrupted installation leaves no
trace, a recorded run can be undone, concurrent installers do not mix, a verifier notices every change, an
export shows no secret. This project models the code behind those promises and proves them for every input,
every fault point and every interleaving.

## How it is organised

| file | what it models |
|---|---|
| `RuntimeModel`, `RuntimeApply`, `RollbackReport`, `RuntimeHistory`, `RuntimeConcurrency`, `RuntimeProgress` | the runtime adapters' transactional apply and rollback: as pure state, as a class whose file-system calls may fail at any point, what a rollback reports, over histories of runs, as interleaved processes, and what these get done |
| `AcceptedInputs` | which ids, paths, plans and previews the two designs accept, text by text |
| `BackupWalk`, `Trees`, `Listings`, `SlashPaths` | directory trees as the operating system lists them, the walk over a backup directory, and path strings |
| `MaterializerModel`, `Materializer`, `MaterializationPlan`, `Drift`, `LockHandles` | the second design of the same idea: `.deleted` markers, three decoders, manifest digests, lock handles |
| `BaselinePolicy`, `Baseline`, `BaselineExact`, `BaselineMeaning` | the exclusion policy, the pruning walk, the manifest builder and the verifier, and what patterns and manifests mean |
| `Json`, `Redactor`, `Exporter`, `ExporterContents` | redaction, canonical text and the export, and what an export tells of its source |
| `Migration` | run records shared by interleaved asynchronous calls |
| `Supervisor`, `Framing`, `UriEncoding`, `PathParams`, `QueryStrings`, `RouteMeaning` | the restart loop in 64-bit arithmetic, cutting streams into lines, path parameters and query from tool call to handler, and what is sent, matched and collected, text by text |
| `Basics`, `Faults`, `Sorting` | shared vocabulary; stretches of time without a failing call; stable sorting and the UTF-16 code-unit order of strings |

A file-system call is atomic and can fail. In the classes `RuntimeApply.Target` and `Materializer.Target` the
constant `faults` says which of the calls fail, and the ghost field `failures` counts those that did, so a
contract with no mention of `failures` holds at every fault point and `failures == old(failures)` reads "if
nothing failed". `Counts`, which every such method ensures, ties the two together: `failures` stays the same exactly
if `faults` holds of no call made meanwhile. A backup directory is a map from relative path to contents; a listing of it is any tree that
shows exactly those files, in any order (`Materializer.ListingsExist` shows that there always is one).

## Where the code does not do what its comments say

These follow the code. Each is a lemma, or an exception spelled out in a contract.

- A failing `chmod` after the registry rename (`packages/runtime-adapters/src/apply.ts:435`) restores the files
  and removes the backup but leaves the registry entry: `AfterCommit` in `RuntimeApply.Target.ApplyPlan`, whose contract
  says that this call alone does it, `RuntimeConcurrency.WholeExactly`, `RuntimeHistory.AfterCommitNotRollable`.
- A failing write to the new lock file (`packages/runtime-adapters/src/apply.ts:270`,
  `packages/materializers/src/locks.ts:52-73`) leaves the lock behind for good:
  `RuntimeConcurrency.LeakStopsEveryone`, `StuckExactly` for nothing else doing so, `LockLeaked` in both `ApplyPlan`
  contracts, `LockHandles.OrphanExactly`.
- A failed materializer apply does not always restore: an existing plan file named `*.deleted` is read as a marker,
  which does harm if it gets to be backed up and there is a file under its stem, or if it gets to be renamed and is
  changed by that; and so does whatever the run's backup directory was wrong about before, as it can be when a plan is
  applied again under its run id. `Materializer.Target.RecoverableExactly` says that for an apply past its first checks
  these are the only cases. For a rollback `MaterializerModel.RollbackExactly` gives the condition: the backup tells the
  truth, and no overwritten file is named `*.deleted`.
- A materializer rollback that cannot `stat` or list part of its backup passes over it, reports success and removes
  the backup: `Materializer.Target.RollbackPlan`, whose `kept` is what has been decoded at any fault point.
- A failed materializer apply removes a manifest that an earlier run had written: `AfterManifest` in
  `Materializer.Target.ApplyPlan`, without a fault exactly when only the check of the new manifest fails.
- An apply that is given an observed digest can only succeed where it has already been applied:
  `Materializer.GuardedApplyFindsPlan`, and `GuardedApplyExactly` for exactly when its checks pass.
- A plan that was previewed before it had a run id fails at its last check, and the earlier manifest is lost: the
  manifest on disk has the id (`packages/materializers/src/apply.ts:128-129`): `Materializer.Target.UnstampedNeverAgrees`.
- `assertSafeRelativePath` accepts `a/b/`, which then fails at staging: `Stageable` in `Materializer`.
- Sorting rows by id makes a table's file independent of their order exactly when rows that share an id print the
  same line: `Exporter.SharedIdShowsOrder`.
- Migration histories are linear only because the storage returns live records: `Migration.CopiedReadGoesBack`
  and `CopiedTransitionTwice` show what copies would do.
- The back-off schedule shrinks for some floors of 2^33 ns and more: `Supervisor.LargeFloorShrinks`, with the
  exact condition in `NeverShrinksExactly`. And with a ceiling below the floor, the first delay is below the floor.

## Model

| member | source | states |
|---|---|---|
| `RuntimeModel.PlannedAt` | packages/runtime-adapters/src/apply.ts:329-346 | after the renames of a plan that names no path twice, each of its paths holds that file's planned bytes and mode |
| `RuntimeModel.RunExactly` | packages/runtime-adapters/src/apply.ts:515-533 | a registry entry is the run's exactly if id, digest and reason are the run's and, file by file in the plan's order, it says whether the file was there, with which mode and which digest (the planned mode and no digest where it was not), and which path, mode and digest were written |
| `RuntimeModel.CommitExactly` | packages/runtime-adapters/src/apply.ts:452-559 | a committed run, of a plan that names no path twice, leaves the planned bytes and modes at its paths and every other file alone, adds its entry at the end of the registry, and keeps a private copy of exactly those of its files that were there |
| `RuntimeModel.RestoreExact` | packages/runtime-adapters/src/apply.ts:365-385 | restoring from the record and the backup taken before an apply gives back every file's bytes, mode or absence, whatever happened to the plan's paths in between |
| `RuntimeModel.RestoreLocal` | packages/runtime-adapters/src/apply.ts:579-595 | restoring a run puts its own paths back to what they were and leaves every other path alone, even after other changes |
| `RuntimeModel.RenameStep` | packages/runtime-adapters/src/apply.ts:331-344 | a staged file is still there for its rename exactly when its path has not come up before; so a plan naming a path twice fails |
| `RuntimeModel.SecondPassIdle` | packages/runtime-adapters/src/apply.ts:596-609 | with a complete registry entry the second pass of a rollback changes nothing |
| `RuntimeModel.BackedUpBytesReturn` | packages/runtime-adapters/src/apply.ts:596-609 | even with entries missing from the registry, every backed-up file gets its bytes back |
| `RuntimeModel.RewriteExactly` | packages/runtime-adapters/src/apply.ts:596-609 | a rewritten file has the bytes of the backup, and its own mode if it is there, that of a new file if not |
| `RuntimeApply.Target.AcquireLock` | packages/runtime-adapters/src/apply.ts:261-279 | the lock is taken exactly if it was free and none of the three calls fails; it stays behind exactly if only the last of them, which fills it in, fails |
| `RuntimeApply.Target.Preserve` | packages/runtime-adapters/src/apply.ts:473-512 | directories and backup are made exactly if neither directory was there and no call fails; only the run's own directories change |
| `RuntimeApply.Target.BackupFiles` | packages/runtime-adapters/src/apply.ts:281-313 | unless a call fails, the record and the backup are those of the files as they are now; nothing but the run's own backup directory changes |
| `RuntimeApply.Target.StageFiles` | packages/runtime-adapters/src/apply.ts:315-327 | unless a call fails, the staging directory holds the planned bytes |
| `RuntimeApply.Target.RenameFiles` | packages/runtime-adapters/src/apply.ts:329-346 | succeeds exactly when no call fails and no path comes twice; then the live files are the old ones with the plan on top; on every exit only plan paths have changed |
| `RuntimeApply.Target.VerifyAfterApply` | packages/runtime-adapters/src/apply.ts:348-363 | the post-apply check passes on an applied plan unless a call fails |
| `RuntimeApply.Target.AtomicWriteRegistry` | packages/runtime-adapters/src/apply.ts:387-436 | appends the run, or leaves the registry as it was; refuses a corrupt registry, an empty id and a duplicate; the failure of the last call, the chmod after the rename, is told apart |
| `RuntimeApply.Target.RestoreFromBackup` | packages/runtime-adapters/src/apply.ts:365-385 | the recovery loop computes the restore function of its entries and backup |
| `RuntimeApply.Target.Transact` | packages/runtime-adapters/src/apply.ts:472-558 | the try, catch and finally blocks: finished means committed, anything else means live files unchanged and the run's directories gone; finished, or committed without its chmod, exactly when the run can commit and none of the calls that it counts out fails, or only that one |
| `RuntimeApply.Target.ApplyPlan` | packages/runtime-adapters/src/apply.ts:452-559 | all or nothing at every fault point: it returns with the state one commit further, or throws with every live file unchanged and the registry unchanged but for the failing last chmod; it returns exactly when the input revalidates, the inputs rescan, the lock is free, the run can commit and no call up to that chmod fails; `AfterCommit` exactly when only that chmod fails, `LockLeaked` exactly when only the call filling in the lock file does |
| `RuntimeApply.Target.RestoreRecorded` | packages/runtime-adapters/src/apply.ts:577-595 | the first pass of a rollback restores the recorded entries and reports, in the order of the record, the paths recorded as existing and those recorded as absent that it removed; without a fault it succeeds exactly when every file recorded as existing has a backup |
| `RuntimeApply.Target.RewriteLeftovers` | packages/runtime-adapters/src/apply.ts:596-609 | the second pass writes back every backed-up file and adds to the report, in ascending order, exactly those not yet in it |
| `RuntimeApply.Target.RollbackPlan` | packages/runtime-adapters/src/apply.ts:561-616 | a rollback computes both passes; for a record without repeated paths it reports as removed exactly the files recorded as absent that were there, each once, and as restored every backed-up file once, those recorded first; without a fault it succeeds exactly when run, backup and backed-up files are there; stopped part-way it has touched only recorded or backed-up paths |
| `RollbackReport.ExistedInOrder` | packages/runtime-adapters/src/apply.ts:582-590 | the paths reported by the first pass are, entry by entry, those recorded as existing |
| `RollbackReport.GoneExactly` | packages/runtime-adapters/src/apply.ts:591-594 | with no path recorded twice, the removed paths are exactly those recorded as absent that are there, each once |
| `RollbackReport.GoneInOrder` | packages/runtime-adapters/src/apply.ts:591-594 | and they come in the order of the record |
| `RollbackReport.ExtendedInOrder` | packages/runtime-adapters/src/apply.ts:604-609 | the second pass adds, name by name, those that were not reported yet |
| `BackupWalk.WalkBackup` | packages/runtime-adapters/src/apply.ts:618-649 | the walk ends and returns the path of every leaf exactly once, dot-prefixed or not, in strictly ascending order |
| `BackupWalk.WalkCovers` | packages/runtime-adapters/src/apply.ts:618-649 | on a backup directory those are exactly the backed-up paths |
| `RuntimeHistory.RecordsLast` | packages/runtime-adapters/src/apply.ts:515-533 | what a run recorded stays readable through every later apply |
| `RuntimeHistory.UndoRecorded` | packages/runtime-adapters/src/apply.ts:561-616 | undoing a recorded run restores its paths and nothing else, and restores everything exactly when nothing else changed since |
| `RuntimeHistory.UndoHistory` | packages/runtime-adapters/src/apply.ts:561-616 | after any history of applies, rolling back in reverse order restores the initial bytes, modes and absences |
| `RuntimeHistory.UndoAlone` | packages/runtime-adapters/src/apply.ts:561-616 | rolling back run k alone does the same when its paths cover those of all later runs |
| `RuntimeHistory.RollbackTwice` | packages/runtime-adapters/src/apply.ts:577-609 | rolling back twice is rolling back once, whatever the registry and the backup hold |
| `RuntimeHistory.AfterCommitNotRollable` | packages/runtime-adapters/src/apply.ts:434-435 | a run whose last chmod failed is registered, cannot be rolled back and blocks its run id |
| `RuntimeConcurrency.InsideSteps` | packages/runtime-adapters/src/apply.ts:472-558 | every step of a process that holds the lock keeps what holds at its program point, or ends with exactly the serial state |
| `RuntimeConcurrency.AlwaysSerial` | packages/runtime-adapters/src/apply.ts:452-559 | the system invariant (mutual exclusion, fresh run ids, serial state) holds after every schedule |
| `RuntimeConcurrency.Serialisable` | packages/runtime-adapters/src/apply.ts:261-279 | for any number of processes, schedules and faults at most one process is inside the lock, and whenever none is, files, registry and backups are those of the successful applies run one after another in lock order; the others leave no trace |
| `RuntimeConcurrency.SoloRunAllowed` | packages/runtime-adapters/src/apply.ts:452-559 | alone, a process taken step by step ends, whatever fails, in an outcome that the contract of `RuntimeApply.Target.ApplyPlan` allows |
| `RuntimeConcurrency.LeakStopsEveryone` | packages/runtime-adapters/src/apply.ts:269-270 | once a lock file has been created but not filled in, no later step of any process changes the shared state and nobody takes the lock again |
| `RuntimeConcurrency.LockedExactly` | packages/runtime-adapters/src/apply.ts:261-279 | after every schedule the lock file is there if and only if a process is inside or failed to fill it in |
| `RuntimeConcurrency.StuckExactly` | packages/runtime-adapters/src/apply.ts:261-279 | the lock file stands without an owner if and only if filling it in has failed |
| `RuntimeConcurrency.WholeExactly` | packages/runtime-adapters/src/apply.ts:434-435 | the serial run consists of whole applies only if and only if no chmod after a registry rename fails in the schedule |
| `RuntimeProgress.EveryoneEnds` | packages/runtime-adapters/src/apply.ts:452-559 | in every interleaving, whatever the others do and whatever fails, a process with n files has ended after 6n + 16 moves of its own |
| `RuntimeProgress.SoloCommits` | packages/runtime-adapters/src/apply.ts:452-559 | alone and with no call failing, a job with distinct paths and files that are what they say, a run id that is new everywhere, a readable registry and a free lock is committed within 6n + 16 steps, and the lock is free again |
| `AcceptedInputs.AcceptedExactly` | packages/runtime-adapters/src/apply.ts:122-224 | an apply that no call fails, under a free lock, has all it takes exactly if: the reviewed digest is 64 lower-case hexadecimal digits and the preview's, both targets are this one, every path is plain names joined by slashes and comes once, every file has its digest and no special mode bits, the MCP entry is not empty, USER.md and SOUL.md are recorded as they are, the registry can be read, and the run id is new |
| `AcceptedInputs.RuntimePathExactly` | packages/runtime-adapters/src/internal/safe-paths.ts:24-38 | a path is safe exactly if it is plain names (not empty, no dot, no two dots) joined by slashes, without NUL and backslash |
| `AcceptedInputs.MaterializerPathExactly` | packages/materializers/src/manifest.ts:206-237 | the materializer's paths are those, but one slash may follow, NUL may stand in them, and no drive letter may begin them |
| `AcceptedInputs.IdsExactly` | packages/materializers/src/manifest.ts:23-28 | a profile, run or snapshot id is valid exactly if it is its prefix followed by at least one letter, digit, dot, underscore or hyphen, and nothing else |
| `AcceptedInputs.PlanExactly` | packages/materializers/src/manifest.ts:14-69 | a plan is acceptable exactly with such ids, one of the two harnesses, a target, and files with a safe path, a digest of 64 lower-case hexadecimal digits and bytes |
| `MaterializationPlan.BuildMaterializationPlan` | packages/materializers/src/manifest.ts:14-69 | a plan is built exactly when header and every file pass, unchanged but for the run id; otherwise the first bad file and its first failing check are named |
| `MaterializationPlan.BuiltPlanShowsDrift` | packages/materializers/src/manifest.ts:43-45 | for a built plan, the observed digest is the plan's exactly when every file is there with its planned bytes; the apply accepts the files of every built plan |
| `Drift.DigestForgetsOrder` | packages/materializers/src/manifest.ts:76-100 | the digest does not depend on the order of the files in the plan |
| `Drift.DriftExact` | packages/materializers/src/manifest.ts:163-195 | with a plan's manifest on disk, the observed digest is the plan's digest if and only if every declared file's live bytes are its planned bytes |
| `Drift.EmptyFileUnnoticed` | packages/materializers/src/manifest.ts:183-190 | a missing file planned as empty goes unnoticed, which is why empty bytes are refused |
| `Drift.MatchingDigestMeansApplied` | packages/materializers/src/manifest.ts:163-195 | a digest on disk equal to a plan's digest means the plan's own manifest is there, header and files, and every file holds its planned bytes |
| `Drift.MatchingDigestExactly` | packages/materializers/src/manifest.ts:163-195 | for any manifest on disk and any live files the observed digest is the plan's if and only if that is the plan's own manifest, whatever bytes it quotes, and every file holds its planned bytes |
| `Drift.OwnDigest` | packages/materializers/src/manifest.ts:163-195 | under the plan's manifest a target where nothing has drifted has the plan's digest, whatever the hash |
| `MaterializerModel.DecodeStep` | packages/materializers/src/apply.ts:352-364 | handling one more file of a backup directory, in any order, keeps the relation between target and visited files |
| `MaterializerModel.DecodeEncoded` | packages/materializers/src/apply.ts:177-196 | decoding what the backup step encoded gives back contents and absences, whatever was since written to the plan's paths, if the backup tells only the truth and no existing plan file is named `*.deleted` |
| `MaterializerModel.DecodableExactly` | packages/materializers/src/apply.ts:173-235 | at every point of an apply within reach, with the first k files backed up and the first j renamed, the recovery gives back the live files if and only if the backup directory told only the truth before and every existing plan file named `*.deleted` that gets to be backed up has no file under its stem and, if it gets to be renamed, is replaced by its own bytes |
| `MaterializerModel.RecoverEncoded` | packages/materializers/src/apply.ts:319-322 | under that condition whatever is recovered at any such point is what was there |
| `MaterializerModel.NoMarkerNamesHarmless` | packages/materializers/src/apply.ts:355-360 | a plan that overwrites no file named `*.deleted` meets the second half of it |
| `MaterializerModel.HarmDone` | packages/materializers/src/apply.ts:355-360 | a harmful `*.deleted` file: at some point within reach some recovery does not give the live files back |
| `MaterializerModel.RollbackExactly` | packages/materializers/src/rollback.ts:160-192 | a rollback gives back the live files, whatever was since written to the plan's paths, if and only if the backup, written over what its directory held, tells only the truth and no overwritten file is named `*.deleted` |
| `MaterializerModel.StaleNameRestored` | packages/materializers/src/apply.ts:175-176 | an untruthful name left in the backup directory by an earlier run is decoded into the live files |
| `MaterializerModel.MarkerNameLost` | packages/materializers/src/apply.ts:355-360 | an overwritten file named `*.deleted` and since changed is not given back by a rollback |
| `MaterializerModel.VisitingOrderMatters` | packages/materializers/src/apply.ts:340-366 | all visiting orders give the same target state if and only if no path is both kept and marked in the directory |
| `MaterializerModel.LastVisitDecides` | packages/materializers/src/apply.ts:352-364 | where one is, the leaf visited last decides what becomes of it |
| `MaterializerModel.MarkerExactly` | packages/materializers/src/apply.ts:190-196 | the markers are exactly the names that end in `.deleted`, an absent file is backed up under one, and each name of a backup is about the path without that ending |
| `Materializer.SameSuffix` | packages/materializers/src/rollback.ts:176-182 | testing the suffix on the full path or on the path below the backup directory comes to the same |
| `Materializer.ListingsExist` | packages/materializers/src/apply.ts:347-350 | every backup directory that can exist can be listed, so the class can be constructed |
| `Materializer.Target.AcquireLock` | packages/materializers/src/locks.ts:40-73 | taken exactly for a valid profile id, a free lock and no failing call; it stays behind exactly if only the call that fills it in fails |
| `Materializer.Target.ObservedManifestDigest` | packages/materializers/src/manifest.ts:163-195 | the loop computes the observed digest of what could be read; without a fault, of the live files, and refuses a manifest of another root |
| `Materializer.Target.MakeBackup` | packages/materializers/src/apply.ts:173-196 | after i files the backup directory holds what it held before with those i files encoded over it; they are at most those that find room in it, without a fault exactly those; it then finishes exactly when all do |
| `Materializer.Target.Preserve` | packages/materializers/src/apply.ts:137-196 | the drift checks and the backup change no live file; the backup directory encodes exactly the files reached over what it held; without a fault it passes exactly when root, digests and directory allow |
| `Materializer.Target.StageFiles` | packages/materializers/src/apply.ts:198-214 | unless it throws, the staging directory holds the planned bytes, whose digests are the declared ones |
| `Materializer.Target.RenameFiles` | packages/materializers/src/apply.ts:216-235 | at every fault point exactly the first so many files of the plan have been renamed, no path twice among them, and at most those that can be; without a fault exactly those; unless it throws that is all of them; without a fault it succeeds exactly when no path comes twice |
| `Materializer.Target.RecoverableExactly` | packages/materializers/src/apply.ts:173-235 | with the room in the backup directory and the renames that staging, digests and repeated paths allow, the condition of `DecodableExactly` is `Recoverable`, what the contract of `ApplyPlan` asks |
| `Materializer.Target.Record` | packages/materializers/src/apply.ts:237-303 | manifest, check, audit and run entry: the run is registered only after all the others, and a manifest written on the way is reported |
| `Materializer.Target.RestoreBackupTree` | packages/materializers/src/apply.ts:340-366 | the recovery's stack walk ends and computes the decoding of the directory |
| `Materializer.Target.RestoreFromBackup` | packages/materializers/src/rollback.ts:268-299 | the exposed helper computes the same decoding and reports every name |
| `Materializer.Target.DecodeBackup` | packages/materializers/src/rollback.ts:160-192 | the rollback's walk, of at most three calls a node: at every fault point `kept` is the part of the backup that has been decoded, all of its names are reported and only subjects of the backup are; it is the whole backup if no call fails; a node that cannot be read is passed over, a failed copy stops the walk |
| `Materializer.Target.Recover` | packages/materializers/src/apply.ts:319-322 | from a backup of any prefix of the plan that finds room, and after any prefix of its renames that can happen, the recovery gives back the live files of a recoverable plan |
| `Materializer.Target.Transact` | packages/materializers/src/apply.ts:136-332 | the try, catch and finally blocks at every fault point: finished and recorded, or live files as before (if the plan is recoverable, or nothing was backed up) with the manifest removed if it had been written; without a fault exactly when each happens |
| `Materializer.Target.ApplyPlan` | packages/materializers/src/apply.ts:105-333 | an ordinary preview is applied: with a run id in the plan, its own digest, files that can be staged, a free lock, room for the backup and no fault, it returns that run id, registered under its target and lock, and the manifest is the plan's; without one in the plan the id is the fallback. For a recoverable plan a throw at any fault point leaves existence and bytes of every live file unchanged, for every plan a throw before the backup does, and always the run registry; a return means applied, recorded and backed up; without a fault it returns exactly when validation, lock and checks allow, and the earlier manifest is lost exactly when all but the check of the new one pass; the lock stays behind exactly when only the call filling it in fails |
| `Materializer.Target.PreviewAgrees` | packages/materializers/src/apply.ts:237-266 | the manifest of a plan previewed under its own run id passes the check against the preview once its files are in place |
| `Materializer.Target.UnstampedNeverAgrees` | packages/materializers/src/apply.ts:125-129 | the manifest of a plan previewed before it had a run id never does, for a hash that tells the two manifests apart |
| `Materializer.Target.Replay` | packages/materializers/src/rollback.ts:159-240 | at every fault point `kept` is what has been decoded, the whole backup if no call of the walk fails, which ends at most three calls before the method does; without a fault manifest and backup directory are gone; the audit gets one entry for the run exactly if it succeeds |
| `Materializer.Target.RollbackPlan` | packages/materializers/src/rollback.ts:78-248 | at every fault point `kept` is the part of the backup that has been decoded and all of its names are reported; it is the whole backup if no call fails up to the end of the walk, at most three a node after the lock and at most three before the end; without a fault manifest, backup and run entry are gone; an unknown run changes nothing; the audit gets one entry for the run exactly if a backup was replayed to the end, and loses none; run entry and lock go however it ends; a failing first `stat` alone gives success with nothing restored and no backup |
| `Materializer.RollbackUndoesApply` | packages/materializers/src/rollback.ts:159-192 | a rollback after an apply whose backup tells only the truth and that overwrote no file named `*.deleted` gives back contents and absences, whatever was since written to the plan's paths |
| `Materializer.GuardedApplyFindsPlan` | packages/materializers/src/apply.ts:148-162 | an apply that passed the check of an observed digest, whatever it failed to read, found the plan's own manifest and every plan file with its planned bytes |
| `Materializer.GuardedApplyExactly` | packages/materializers/src/apply.ts:148-171 | where all can be read, the checks of a guarded apply pass if and only if the caller's digests are the preview's, the plan's own manifest is on disk and every plan file is there with its planned bytes |
| `LockHandles.AtMostOneHolder` | packages/materializers/src/locks.ts:40-99 | over every run of acquires and releases, failed calls included, at most one unreleased handle exists per key, and its file is there |
| `LockHandles.SecondReleaseIdle` | packages/materializers/src/locks.ts:81-97 | releasing an already released handle changes nothing, however many calls came in between |
| `LockHandles.ReleaseIsOwn` | packages/materializers/src/locks.ts:81-97 | releasing a held handle leaves the lock files of every other held handle alone |
| `LockHandles.OrphanExactly` | packages/materializers/src/locks.ts:50-97 | over every run of calls a lock file has no handle in use exactly if it was there at first, or a write or an unlink of its own failed |
| `LockHandles.LockDirectory.AcquireLock` | packages/materializers/src/locks.ts:40-99 | a fresh handle exactly for a valid profile id, a free key and no failing call; state as the step function says |
| `LockHandles.LockDirectory.ReleaseHandle` | packages/materializers/src/locks.ts:81-118 | the handle is released, the state is that of the step function, and a second release removes no file |
| `BaselinePolicy.MatchInherited` | packages/baseline/src/index.ts:52-62 | a segment glob or slash pattern that matches a path matches every extension of it |
| `BaselinePolicy.ExclusionInherited` | packages/baseline/src/index.ts:48-62 | exclusion is inherited by every extension of an excluded path |
| `BaselineMeaning.StarMatches` | packages/baseline/src/index.ts:48-51 | a star matches any text within one line, and nothing else |
| `BaselineMeaning.TextExactly` | packages/baseline/src/index.ts:48-51 | a pattern without a star matches exactly the names equal to it but for the case of ASCII letters |
| `BaselineMeaning.BeginsExactly` | packages/baseline/src/index.ts:48-51 | `w*` matches exactly the names that begin with w |
| `BaselineMeaning.EndsExactly` | packages/baseline/src/index.ts:48-51 | `*w` matches exactly those that end in it |
| `BaselineMeaning.ContainsExactly` | packages/baseline/src/index.ts:48-51 | `*w*` matches exactly those that contain it |
| `BaselineMeaning.DefaultPolicyExactly` | packages/baseline/src/index.ts:52-62 | the default policy excludes a path exactly if one of its names is one of twelve, begins with `.env.` or `coverage.`, ends in `.pyc` or `.egg-info`, or contains `secret`, `token` or `cookie`, in any case |
| `BaselineMeaning.NothingExcludedIsBuilt` | packages/baseline/src/index.ts:118-124 | no built manifest lists a path with such a name |
| `BaselineMeaning.BuiltExactly` | packages/baseline/src/index.ts:91-124 | a built manifest lists exactly the regular files with no such name on their path that are at or below an entry of the allowlist, each with its size, permission bits and digest |
| `BaselineMeaning.BuiltAscends` | packages/baseline/src/index.ts:122-122 | in ascending order of paths |
| `BaselineMeaning.BuiltManifestVerifies` | packages/baseline/src/index.ts:118-174 | a manifest is accepted, under either mode policy, for the tree it was built from |
| `BaselineMeaning.NormalExactly` | packages/baseline/src/index.ts:20-36 | a path is normal exactly if it is "." or plain names joined by slashes, without NUL and backslash |
| `BaselineMeaning.UnderExactly` | packages/baseline/src/index.ts:45-47 | a path is listed under an entry exactly if the entry is "." or its names are the first names of the path |
| `BaselineMeaning.HeaderExactly` | packages/baseline/src/index.ts:133-147 | the header checks find nothing exactly if version and policies are the expected ones, the root is this one, a snapshot has an absolute path and a digest of 64 hexadecimal digits, the allowlist is valid and the exclusions are the default ones |
| `BaselineMeaning.AllowlistExactly` | packages/baseline/src/index.ts:37-44 | an allowlist is valid exactly if it has entries, all normal, in strictly ascending order |
| `BaselineMeaning.CheckoutModes` | packages/baseline/src/index.ts:126-136 | the exact policy compares modes, the other one only the owner's executable bit |
| `Baseline.WalkDirectory` | packages/baseline/src/index.ts:91-107 | the recursive loop computes the pruned walk, and fails exactly where it meets a symbolic link |
| `Baseline.BuildBaselineManifest` | packages/baseline/src/index.ts:118-124 | a manifest is built exactly when allowlist and exclusions are valid and every allowed file can be described |
| `Baseline.CheckItems` | packages/baseline/src/index.ts:148-160 | the item loop reports nothing exactly when every item is well-formed, normal, listed, not excluded and not repeated |
| `Baseline.CheckFiles` | packages/baseline/src/index.ts:161-168 | the file loop reports nothing exactly when every item is on disk with that size, digest and mode |
| `Baseline.CheckExtras` | packages/baseline/src/index.ts:169-172 | the last loop reports nothing exactly when the walk succeeds and every allowed file it finds is expected |
| `Baseline.VerifyBaselineManifest` | packages/baseline/src/index.ts:133-174 | valid exactly when the three loops and the header checks together find nothing |
| `BaselineExact.PruningSound` | packages/baseline/src/index.ts:91-107 | cutting excluded subtrees returns exactly what a full traversal followed by a filter returns |
| `BaselineExact.WalkOnce` | packages/baseline/src/index.ts:91-107 | the walk returns no path twice |
| `BaselineExact.AcceptedIsBuilt` | packages/baseline/src/index.ts:133-174 | an accepted manifest describes, under either mode policy, exactly the files the builder would describe |
| `BaselineExact.BuiltIsAccepted` | packages/baseline/src/index.ts:118-174 | a manifest that describes what the builder would describe is accepted, under either mode policy |
| `BaselineExact.VerifierIsExact` | packages/baseline/src/index.ts:118-174 | in exact mode a manifest is accepted if and only if its header is valid, its files are distinct and, as a set, those the builder yields for the same root and allowlist |
| `BaselineExact.EveryChangeCaught` | packages/baseline/src/index.ts:118-174 | a manifest built from one tree is accepted for another exactly when the allowed files of both have the same paths, contents and modes, for a hash that does not collide on contents of one size that the two trees have at one path |
| `Redactor.RedactInternal` | packages/migration/src/redactor.ts:18-44 | the loop over fields and items computes the redaction |
| `Redactor.RedactIdempotent` | packages/migration/src/redactor.ts:18-44 | redacting twice is redacting once |
| `Redactor.RedactHidesExactly` | packages/migration/src/redactor.ts:18-44 | two values redact alike if and only if they differ at most below secret-shaped keys |
| `Redactor.RedactExactly` | packages/migration/src/redactor.ts:18-44 | the redaction of a value is the one value that has the mark below every secret-shaped key and is otherwise the same |
| `Redactor.SecretKeyExactly` | packages/migration/src/classifier.ts:20-30 | a key is secret exactly if one of the seven words stands in it, at any place and in any case |
| `Redactor.SecretLeavesRedacted` | packages/migration/src/classifier.ts:37-54 | every leaf the classifier marks SECRET is redacted itself or lies under a redacted ancestor |
| `Redactor.LeafClass` | packages/migration/src/classifier.ts:37-54 | a leaf is classified SECRET exactly if it is the value of a secret-shaped key, otherwise PUBLIC |
| `Exporter.CanonForgetsKeyOrder` | packages/migration/src/exporter.ts:70-94 | the canonical form of a value does not depend on the order of keys at any depth |
| `ExporterContents.CanonKeeps` | packages/migration/src/exporter.ts:82-94 | the canonical form of an object has exactly its fields that are not undefined, each in canonical form, in ascending order of keys |
| `ExporterContents.CanonSame` | packages/migration/src/exporter.ts:70-94 | a value without undefined fields is its canonical form but for the order of keys |
| `ExporterContents.CanonTells` | packages/migration/src/exporter.ts:70-94 | values with the same canonical form are the same but for the order of keys |
| `Exporter.SortedIds` | packages/migration/src/exporter.ts:100-108 | sorting rows sorts their ids in ascending code-unit order, whether or not they repeat |
| `Sorting.UnitsLessExactly` | packages/migration/src/exporter.ts:100-108 | of two texts the proper prefix comes first, and otherwise the one with the smaller code unit where they first differ |
| `Sorting.UnitsExactly` | packages/migration/src/exporter.ts:100-108 | a character below 0x10000 is its own code unit, any other the surrogate pair that spells it |
| `Exporter.PermutedFile` | packages/migration/src/exporter.ts:120-133 | where rows that share an id print alike, every order of a table's rows gives the same file, digest and count |
| `Exporter.ExportService.PrintRows` | packages/migration/src/exporter.ts:123-124 | the printed content is one redacted canonical line for each row, in order |
| `Exporter.ExportService.Run` | packages/migration/src/exporter.ts:113-156 | the run returns the export of its source, and every file it reports is in the working directory with the reported content |
| `ExporterContents.FileIsItsLines` | packages/migration/src/exporter.ts:120-133 | cut at its newlines, a file is one printed row a line, by ascending id, and nothing else |
| `ExporterContents.EqualFilesEqualRows` | packages/migration/src/exporter.ts:120-133 | tables with equal files have, by id and once redacted, rows that are the same but for the order of keys, for a printing that tells them apart |
| `ExporterContents.ExportHasEveryTable` | packages/migration/src/exporter.ts:113-156 | an export has one file for each of the eight tables, named after it, with its digest and number of rows, in ascending order of paths |
| `ExporterContents.ManifestTells` | packages/migration/src/exporter.ts:135-154 | exports with equal manifest digests have the same adapter, source digest and classification, the same counts and, file by file, the same path, digest and number of rows, for a digest that does not collide on the two manifests |
| `Exporter.SecretsDoNotShow` | packages/migration/src/exporter.ts:120-154 | sources that differ only below secret-shaped keys, at any depth, export identical files and manifest digest, distinct ids or not |
| `Exporter.OrderDoesNotShow` | packages/migration/src/exporter.ts:113-156 | permuting the rows of any table whose rows print alike when they share an id (distinct ids are enough), and the keys of any object, leaves content, digest and count of every file and the manifest digest unchanged |
| `Exporter.DistinctIdsPrintAlike` | packages/migration/src/exporter.ts:100-108 | distinct ids are enough for that |
| `Exporter.SharedIdShowsOrder` | packages/migration/src/exporter.ts:100-108 | the file of a table is the same for every order of its rows if and only if rows that share an id print the same line |
| `Migration.LegalIsNext` | packages/migration/src/state-machine.ts:12-56 | a transition is legal exactly when it goes to the next state of the list |
| `Migration.ResumeKeepsLinear` | packages/migration/src/service.ts:59-102 | what a call does after its await keeps a linear history linear, never moves the state back, and a read leaves the state alone |
| `Migration.NeverBack` | packages/migration/src/service.ts:59-102 | along a linear history states never go back, and go on at every entry that is not a read |
| `Migration.EdgesOnce` | packages/migration/src/service.ts:59-84 | each edge is recorded at most once |
| `Migration.RetiredIsFinal` | packages/migration/src/state-machine.ts:38-48 | nothing but reads can be recorded on a retired run |
| `Migration.EveryInterleavingLinear` | packages/migration/src/service.ts:43-102 | under every interleaving of calls with their awaits every run's history is linear and only grows, and no state goes back |
| `Migration.TransitionMade` | packages/migration/src/service.ts:59-84 | whatever went before, a call to the state after the present one, run to its end, moves its run there with that one entry and leaves every other run alone |
| `Migration.FullLife` | packages/migration/src/state-machine.ts:12-56 | the eight transitions in order take a new run from `Exported` to `Retired`, one entry each |
| `Migration.BegunExactly` | packages/migration/src/storage-adapter.ts:72-103 | a new run gets an id not used before and one entry, and no other run changes |
| `Migration.CopiedReadGoesBack` | packages/migration/src/storage-adapter.ts:105-111 | if the storage returned copies, a read could move a run backwards |
| `Migration.CopiedTransitionTwice` | packages/migration/src/storage-adapter.ts:105-111 | if the storage returned copies, two overlapping calls could record one edge twice |
| `Migration.MigrationService.Begin` | packages/migration/src/storage-adapter.ts:72-103 | a new record under an id not used before, with its one initial entry |
| `Migration.MigrationService.Start` | packages/migration/src/service.ts:63-63 | a call up to its await: it holds the live record if there is one |
| `Migration.MigrationService.Finish` | packages/migration/src/service.ts:63-101 | a legal transition appends exactly its entry and moves the run; a read appends exactly its own and leaves the state; a transition to the present state changes nothing, any other throws and changes nothing; no other record is touched |
| `Migration.MigrationService.AppendTransition` | packages/migration/src/storage-adapter.ts:117-134 | the entry is appended in place and the state follows it |
| `Supervisor.DelayExactly` | internal/mcp/supervisor.go:534-556 | the delay is min(Max, Min * 2^min(n-1,30)) if and only if the 64-bit shift did not wrap to a word strictly between 0 and the ceiling |
| `Supervisor.IdealExactly` | internal/mcp/supervisor.go:534-556 | that schedule starts at the floor (a millisecond if none is set), doubles up to the ceiling (the floor if none is set) and stays as it is after thirty doublings |
| `Supervisor.HarmedExactly` | internal/mcp/supervisor.go:547-554 | the shift is harmed exactly if the product needs more than 63 bits and its low 64 bits are a number between 0 and the ceiling, which then is the delay |
| `Supervisor.SmallFloorUnharmed` | internal/mcp/supervisor.go:534-556 | with a floor below 2^33 ns it is that for every n |
| `Supervisor.NeverShrinksExactly` | internal/mcp/supervisor.go:534-556 | the schedule is nondecreasing if and only if it is the ideal one for every n |
| `Supervisor.LargeFloorShrinks` | internal/mcp/supervisor.go:547-554 | a floor of 2^34+1 ns makes the thirty-first delay a sixteenth of the first |
| `Supervisor.Supervisor.Run` | internal/mcp/supervisor.go:208-278 | the loop returns the verdict, exit code, number of children and delays that the step-by-step definition gives |
| `Supervisor.EndExactly` | internal/mcp/supervisor.go:208-278 | there is exactly one way to end that restarts after failures only and within the budget, sleeps the scheduled delay before each restart, stops at the first check that sees a cancellation with code 0, gives up with code 1, and without restarts passes on the child's exit status, or -1 if it has none; it is the loop's |
| `Supervisor.RestartsBounded` | internal/mcp/supervisor.go:208-278 | at most max(MaxAttempts,0)+1 children, at most max(MaxAttempts,0) delays, in sum no longer than that many ceilings |
| `Supervisor.UncancelledExactly` | internal/mcp/supervisor.go:216-278 | never cancelled, it succeeds exactly when one of the children it may start exits cleanly, and stops at the first; otherwise it uses up its budget |
| `Framing.LinesMakeStream` | packages/mcp/src/server.ts:191-200 | the lines and the tail of a stream concatenate to it, each line with its one newline at the end |
| `Framing.OnlyCut` | packages/mcp/src/server.ts:191-200 | there is no other way to cut the stream like that |
| `Framing.FrameReader.OnData` | packages/mcp/src/server.ts:191-200 | one chunk hands on the frames it completes and keeps the rest |
| `Framing.ChunksMakeFrames` | packages/mcp/src/server.ts:191-200 | for every cutting into chunks the frames handled are those of the whole stream |
| `Framing.TextsSentAreTrimmed` | packages/mcp/src/server.ts:191-211 | of texts sent one to a line each is handled as the trim leaves it, in order, but for those it leaves nothing of |
| `Framing.FramesSentAreReceived` | packages/mcp/src/server.ts:191-211 | frames sent one to a line are handled whole and in order for every cutting |
| `Framing.IndexNewline` | internal/mcp/supervisor.go:560-567 | the first newline, or none |
| `Framing.StderrRelay.OnRead` | internal/mcp/supervisor.go:371-389 | one read writes the redaction of each line it completes and keeps the rest |
| `Framing.StderrRelay.Flush` | internal/mcp/supervisor.go:362-369 | at the end the partial line is redacted and written |
| `Framing.StderrRedactedByLine` | internal/mcp/supervisor.go:352-404 | for every cutting the output is, line by line, the redaction of each complete line and then of the final partial one, with nothing in between |
| `UriEncoding.DecodeEncoded` | packages/rest/src/app.ts:315-317 | `decodeURIComponent` undoes `encodeURIComponent` on every well-formed string |
| `UriEncoding.StandsForItself` | packages/mcp/src/rest-transport.ts:20-36 | letters, digits and nine marks stand for themselves; every other character becomes escapes with upper-case digits |
| `UriEncoding.MalformedEscape` | packages/rest/src/app.ts:315-320 | text whose first percent sign is not followed by two hexadecimal digits is refused |
| `PathParams.SubstituteExactly` | packages/mcp/src/rest-transport.ts:20-36 | substitution in a template fills every placeholder of either notation, and fails exactly when one has no value, naming such a one |
| `PathParams.SecondSubstitutionIdle` | packages/mcp/src/rest-transport.ts:65-71 | on a path of encoded text and slashes the second substitution is the identity, whatever the parameters |
| `PathParams.SubstitutionIdleExactly` | packages/mcp/src/rest-transport.ts:20-36 | substitution leaves a path alone, whatever the parameters, if and only if no placeholder begins in it |
| `PathParams.SecondSubstitutionExactly` | packages/mcp/src/tool-invoker.ts:131-139 | the transport sends the invoker's path as it is if and only if no placeholder begins in it |
| `PathParams.SentPath` | packages/mcp/src/tool-invoker.ts:131-139 | invoker and transport together send the path filled in once, and the query |
| `QueryStrings.QueryReadBack` | packages/mcp/src/rest-transport.ts:38-43 | behind any path without a question mark the query that was sent is read back pair by pair, and it is empty text exactly if it has no pairs |
| `QueryStrings.QueryArrives` | packages/rest/src/app.ts:323-323 | the server reads the query of a tool call as it was given, whatever the path parameters |
| `RouteMeaning.InvalidExactly` | packages/mcp/src/rest-transport.ts:45-52 | a path is refused exactly if it does not begin with a slash, or NUL or white space stands in it |
| `RouteMeaning.IdentifierExactly` | packages/mcp/src/rest-transport.ts:30-30 | an identifier is a letter or an underscore and then letters, digits and underscores |
| `PathParams.GluedPlaceholder` | packages/mcp/src/rest-transport.ts:23-34 | for every key and value, what is filled in straight after a colon is read as a placeholder in its turn exactly when it begins like an identifier, and as far as it can be |
| `PathParams.CollectParams` | packages/rest/src/app.ts:310-322 | the loop over the names yields the decoded captures, or fails on the first malformed one |
| `RouteMeaning.RefusedExactly` | packages/rest/src/app.ts:310-322 | the parameters are refused exactly if a capture has a malformed escape |
| `RouteMeaning.CollectedExactly` | packages/rest/src/app.ts:310-322 | otherwise they are the decoded captures that are not empty, each under its own name |
| `RouteMeaning.CapturesExactly` | packages/rest/src/app.ts:310-322 | a route matches exactly the requests that line up with it segment by segment, fixed text as it is and placeholders by one segment that is not empty (the last of an open route by all that remains), and each placeholder captures its own |
| `RouteMeaning.OneDotGoes` | packages/rest/src/app.ts:310-310 | the first dot segment of a path, a single dot, goes away when the URL is parsed, and at the end leaves an empty segment (section 5.2.4 of RFC 3986) |
| `RouteMeaning.TwoDotsGo` | packages/rest/src/app.ts:310-310 | two dots take the segment before them along |
| `RouteMeaning.FirstDotsGo` | packages/rest/src/app.ts:310-310 | with none before them they go away alone |
| `PathParams.ParametersArriveExactly` | packages/rest/src/app.ts:310-322 | the handler receives exactly the parameters sent when every value used is neither empty nor a dot segment (section 5.2.4 of RFC 3986); otherwise the route does not match the request |

## Left out

Assumptions the proofs rest on:

- Plan paths lie outside `.pah/`: live files, backups, staging, registry, manifest and locks are separate fields.
- Calls are atomic: no partly written file. The calls of the recovery (restore, directory removal, unlock) do not fail.
- Symbolic links, ownership, file descriptors, fsync, empty directories and crashes of the machine.
- SHA-256, JSON text, base64 and `localeCompare` are parameters: the hash does not collide on the texts that a
  lemma compares and is not all zeros on the plan's, printing and parsing undo each other, a printed line holds no
  newline, the comparison orders a plan's paths strictly and totally.
- Run ids of the runtime adapters are distinct and fresh (`randomUUID`). Those of the materializer come from the
  plan, so its contracts say what they need of a backup directory that is already there.
- Case folding in patterns is that of ASCII; lone surrogates, on which `encodeURIComponent` throws, do not occur.

Not modelled, or modelled in another form:

- RuntimeApply.Target.RollbackPlan: the code takes no lock for it, so mutual exclusion is proved for applies only.
- RuntimeApply.Target.ApplyPlan: what stands in the way of a directory or a rename, such as a plan path below a live file or below another plan path, counts as a failing call.
- Materializer.Target.ApplyPlan: the same holds of its live and staging files; only backup directories are kept free of such clashes.
- RuntimeConcurrency.Serialisable: staging files between single calls are one step per plan file; the backup step's read, write and chmod are one step.
- Materializer.Target.ApplyPlan: file modes are not part of the state, because the code sets them on a best-effort basis and never restores them.
- Materializer.Target.ObservedManifestDigest: a manifest that cannot be parsed counts as absent; field defaults for a manifest written by hand are not modelled.
- Materializer.Target.RollbackPlan: the early return when the backup is gone is modelled, with the manifest removed outside the lock and the run entry kept, as in the code.
- Materializer.Target.RestoreFromBackup: its calls do not fail here.
- BaselinePolicy.Glob: a `?` in a pattern, which the code leaves unescaped and so reads as a quantifier, is a plain character here; no default pattern has one, and a manifest with other patterns is rejected.
- Baseline.WalkDirectory: entries come in a fixed order of the tree instead of sorted by `localeCompare`; only the builder's final sort shows in a manifest.
- Baseline.VerifyBaselineManifest: problems are constructors, not messages; the archive entry validator is left out.
- Exporter.ExportService.Run: row ids are strings (others count as empty); integer-like keys, which JavaScript lists first, the key `__proto__`, shared object references and objects with a prototype are left out.
- Migration.MigrationService.Finish: digests, archive path, timestamps, actors and request ids of a record.
- Supervisor.Supervisor.Run: spawning, pipes and signals; when each child ends and when the context is cancelled are parameters.
- Framing.FrameReader.OnData: parsing and answering a frame; answers are written as handlers finish, not in order. `trim` is a parameter.
- Framing.StderrRelay.OnRead: the patterns of the redaction are a parameter.
- PathParams.ParametersArriveExactly: which route is chosen when several match; a skill called `search` is caught by an earlier route.
- QueryStrings.QueryReadBack: the reader takes `+` for itself and fails on a malformed escape; text that no sender of this model writes may be read otherwise by the server. Names that repeat are kept in order, where the server keeps the last.
- PathParams.Invoke: names inherited from the prototype of the parameter object, headers, and HTTP itself.
- Ownership and tmp directories removed after the lock is released, audit storage, profile rendering, the placeholder services of the
  migration package, the CLI dispatchers, configuration, telemetry, capability filters and the graph user interface.
