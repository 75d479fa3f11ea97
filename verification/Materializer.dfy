/** The materializer's `applyPlan` and `rollbackPlan`, with file-system calls that may fail at any point. */
module Materializer {
  import opened Basics
  import opened Faults
  import opened SlashPaths
  import opened Trees
  import opened Listings
  import opened Drift
  import opened LockHandles
  import opened MaterializerModel

  datatype ApplyInput = ApplyInput(
    plan: ManifestV1, previewDigest: string, lockDir: string,
    observedDigest: Option<string>, expectedDigest: Option<string>)

  datatype RunRecord = RunRecord(targetRoot: string, lock: LockKey)

  datatype Stage =
    | Invalid         // the plan is not acceptable
    | LockHeld        // the lock file was there, or could not be created
    | LockLeaked      // the lock file was created but could not be filled in
    | Unprepared      // a check before the backup failed
    | BeforeManifest  // after those checks, the manifest not written yet
    | AfterManifest   // the manifest was written and has been removed again

  datatype ApplyResult = Done(runId: string) | Threw(stage: Stage)
  datatype RollbackResult = Restored(names: seq<string>) | Refused | Broken

  /** How far the pipeline got: the variables its catch and finally blocks look at. */
  datatype Progress = Progress(finished: bool, backupDir: bool, stageDir: bool, manifestWritten: bool)

  predicate IsDriveLetter(c: char) {
    'A' <= c <= 'Z' || 'a' <= c <= 'z'
  }

  /** One trailing slash is tolerated here; the write that follows is what refuses it. */
  predicate SafeRelative(path: string) {
    && path != "" && path[0] != SLASH
    && !(|path| >= 3 && IsDriveLetter(path[0]) && path[1] == ':' && path[2] in ['/', '\\'])
    && '\\' !in path
    && WithoutTrailingSlash(path) != ""
    && var segments := Split(WithoutTrailingSlash(path));
       forall i | 0 <= i < |segments| :: segments[i] !in ["", ".", ".."]
  }

  predicate EndsInSlash(path: string) {
    path != "" && path[|path| - 1] == SLASH
  }

  predicate ValidFiles(files: seq<ManifestFile>) {
    forall f | f in files :: SafeRelative(f.relativePath) && IsHex64(f.sha256)
  }

  predicate ValidRunId(s: string) {
    |s| > 4 && s[..4] == "run_" && forall i | 4 <= i < |s| :: IsIdChar(s[i])
  }

  function DirOf(dirs: map<string, Content>, runId: string): Content {
    if runId in dirs then dirs[runId] else map[]
  }

  function Stamped(plan: ManifestV1, runId: string): ManifestV1 {
    plan.(runId := Some(runId))
  }

  // ---- walking a backup directory --------------------------------------------------------------

  /** Nothing is lost or visited twice: what has been visited and what is still stacked make up the leaves. */
  ghost predicate Visiting<V>(listing: Tree<V>, stack: seq<Item<V>>, visited: seq<(Path, V)>) {
    multiset(visited) + StackLeaves(stack) == multiset(Leaves(listing, []))
  }

  lemma VisitStart<V>(listing: Tree<V>)
    ensures Visiting(listing, [Item([], listing)], [])
  {
    assert [Item([], listing)][..0] == [];
  }

  lemma OneStacked<V>(listing: Tree<V>)
    ensures StackSize([Item([], listing)]) == Size(listing)
  {
    assert [Item([], listing)][..0] == [];
  }

  /** Popping a directory pushes its children; popping a file visits it. */
  lemma {:induction false} VisitTop<V>(listing: Tree<V>, stack: seq<Item<V>>, visited: seq<(Path, V)>)
    requires stack != [] && Visiting(listing, stack, visited)
    ensures
      var top, rest := stack[|stack| - 1], stack[..|stack| - 1];
      if top.node.Dir? then
        && Visiting(listing, rest + Items(top.node.entries, top.path), visited)
        && StackSize(rest + Items(top.node.entries, top.path)) < StackSize(stack)
      else
        && Visiting(listing, rest, visited + [(top.path, top.node.value)])
        && StackSize(rest) < StackSize(stack)
        && (top.path, top.node.value) in Leaves(listing, [])
  {
    var top, rest := stack[|stack| - 1], stack[..|stack| - 1];
    if top.node.Dir? {
      PushEntries(rest, top.node.entries, top.path);
    } else {
      assert Leaves(top.node, top.path) == [(top.path, top.node.value)];
      assert (top.path, top.node.value) in StackLeaves(stack);
      assert (top.path, top.node.value) in multiset(Leaves(listing, []));
    }
  }

  /** Skipping a node counts its leaves as seen. */
  lemma {:induction false} SkipTop<V>(listing: Tree<V>, stack: seq<Item<V>>, visited: seq<(Path, V)>)
    requires stack != [] && Visiting(listing, stack, visited)
    ensures
      var top, rest := stack[|stack| - 1], stack[..|stack| - 1];
      Visiting(listing, rest, visited + Leaves(top.node, top.path)) && StackSize(rest) < StackSize(stack)
  {
  }

  /** The visited leaves, as the part of the directory that has been decoded. */
  ghost predicate Covers(dir: Content, visited: seq<(Path, Bytes)>, done: Content) {
    && (forall name | name in done :: name in dir && dir[name] == done[name])
    && (forall x | x in visited :: x.0 != [] && Join(x.0) in done)
  }

  lemma CoverOne(listing: Tree<Bytes>, dir: Content, visited: seq<(Path, Bytes)>, done: Content, x: (Path, Bytes))
    requires Lists(listing, dir) && Covers(dir, visited, done) && x in Leaves(listing, [])
    ensures x.0 != [] && Covers(dir, visited + [x], done[Join(x.0) := x.1])
  {
  }

  lemma CoverAll(listing: Tree<Bytes>, dir: Content, visited: seq<(Path, Bytes)>, done: Content)
    requires Lists(listing, dir) && Covers(dir, visited, done) && Visiting(listing, [], visited)
    ensures done == dir
  {
    forall name | name in dir ensures name in done {
      var x :| x in Leaves(listing, []) && x.0 != [] && Join(x.0) == name;
      assert StackLeaves<Bytes>([]) == multiset{};
      assert x in multiset(Leaves(listing, []));
      assert x in multiset(visited);
    }
  }

  /** The suffix test on a full path and on the path below the backup directory agree. */
  lemma SameSuffix(backupDir: string, relative: string)
    requires relative != ""
    ensures IsMarker(backupDir + [SLASH] + relative) <==> IsMarker(relative)
  {
    var whole := backupDir + [SLASH] + relative;
    if |relative| >= |DELETED| {
      assert whole[|whole| - |DELETED|..] == relative[|relative| - |DELETED|..];
    } else if |whole| >= |DELETED| {
      var tail, k := whole[|whole| - |DELETED|..], |DELETED| - |relative| - 1;
      assert tail[k] == SLASH;
      assert DELETED[k] != SLASH;
    }
  }

  /** Listings show exactly the files that are there. */
  ghost predicate ShowsFiles(list: Content -> Tree<Bytes>) {
    forall dir: Content | Listable(dir) :: Lists(list(dir), dir)
  }

  ghost function SomeListing(dir: Content): Tree<Bytes> {
    if exists t :: Lists(t, dir) then var t :| Lists(t, dir); t else Dir([])
  }

  /** There is a way to list every directory that can exist. */
  lemma ListingsExist() returns (list: Content -> Tree<Bytes>)
    ensures ShowsFiles(list)
  {
    hide Lists, Listable;
    list := (dir: Content) => SomeListing(dir);
    forall dir: Content | Listable(dir) ensures Lists(list(dir), dir) {
      var t := ListingExists(dir);
    }
  }

  class Target {
    const root: string
    const codec: Codec
    const sha: Bytes -> string
    /** The target root recorded in a manifest does not lie outside this one. */
    const rootOk: string -> bool
    /** Call number n to the file system fails. */
    const faults: nat -> bool
    /** How the operating system lists a directory with these files below it. */
    const list: Content -> Tree<Bytes>

    var clock: nat
    ghost var failures: nat
    var live: Content
    var backups: map<string, Content>
    var staging: map<string, Content>
    var manifest: Option<ManifestV1>
    var locks: set<LockKey>
    var runs: map<string, RunRecord>
    var audits: seq<string>

    constructor (root: string, codec: Codec, sha: Bytes -> string, rootOk: string -> bool, faults: nat -> bool,
                 list: Content -> Tree<Bytes>, live: Content)
      requires ShowsFiles(list)
      ensures Valid()
      ensures this.root == root && this.codec == codec && this.sha == sha && this.rootOk == rootOk
      ensures this.faults == faults && this.list == list && this.live == live
      ensures backups == map[] && staging == map[] && manifest == None && locks == {} && runs == map[]
    {
      this.root, this.codec, this.sha, this.rootOk, this.faults, this.list := root, codec, sha, rootOk, faults, list;
      clock, failures, this.live, backups, staging := 0, 0, live, map[], map[];
      manifest, locks, runs, audits := None, {}, map[], [];
    }

    /** Calls since then are counted: failures went up exactly if one of them failed. */
    ghost predicate Counts(since: nat, counted: nat)
      reads `clock, `failures
    {
      && clock >= since && failures >= counted
      && (failures == counted <==> Clear(faults, since, clock))
    }

    /** A run of file-system calls that change nothing modelled here; stops at the first failure. */
    method Io(calls: nat) returns (ok: bool)
      modifies `clock, `failures
      ensures ok <==> failures == old(failures)
      ensures Counts(old(clock), old(failures))
      ensures old(clock) <= clock <= old(clock) + calls && (ok ==> clock == old(clock) + calls)
    {
      ok := true;
      for i := 0 to calls
        invariant clock == old(clock) + i && ok && failures == old(failures)
        invariant forall c | old(clock) <= c < clock :: !faults(c)
      {
        ok := !faults(clock);
        clock := clock + 1;
        if !ok {
          failures := failures + 1;
          return;
        }
      }
    }

    method AcquireLock(key: LockKey) returns (r: Option<Stage>)
      modifies `clock, `failures, `locks
      ensures Counts(old(clock), old(failures))
      ensures r == None ==> key !in old(locks) && locks == old(locks) + {key} && clock == old(clock) + 3
      ensures r == Some(LockHeld) ==> locks == old(locks)
      ensures r == Some(LockLeaked) ==> key !in old(locks) && locks == old(locks) + {key}
      ensures r in {None, Some(LockHeld), Some(LockLeaked)}
      ensures failures == old(failures) ==> (r == None <==> ValidProfile(key.profileId) && key !in old(locks))
      ensures r == None <==>
        ValidProfile(key.profileId) && key !in old(locks) && Clear(faults, old(clock), old(clock) + 3)
      ensures r == Some(LockLeaked) <==>
        && ValidProfile(key.profileId) && key !in old(locks)
        && Clear(faults, old(clock), old(clock) + 2) && faults(old(clock) + 2)
    {
      if !ValidProfile(key.profileId) { return Some(LockHeld); }
      var ok := Io(2); // mkdir, open with 'wx'
      if !ok || key in locks { return Some(LockHeld); }
      locks := locks + {key};
      ok := Io(1);
      return if ok then None else Some(LockLeaked);
    }

    /** A file that cannot be read counts as empty, a manifest that cannot be read as absent. */
    method ObservedManifestDigest() returns (digest: Option<string>, ghost readable: Content)
      modifies `clock, `failures
      ensures Counts(old(clock), old(failures))
      ensures forall p | p in readable :: p in live && readable[p] == live[p]
      ensures digest.Some? ==>
        digest.value == NO_MANIFEST || digest.value == ObservedDigest(codec, manifest, readable)
      ensures failures == old(failures) ==>
        && readable == live
        && digest == if manifest.Some? && !rootOk(manifest.value.targetRoot) then None
                     else Some(ObservedDigest(codec, manifest, live))
    {
      var ok := Io(1);
      if !ok || manifest == None { return Some(NO_MANIFEST), live; }
      if !rootOk(manifest.value.targetRoot) { return None, live; }
      var seen: Content := live;
      for i := 0 to |manifest.value.files|
        invariant Counts(old(clock), old(failures))
        invariant failures == old(failures) ==> seen == live
        invariant forall p | p in seen :: p in live && seen[p] == live[p]
      {
        ok := Io(1);
        if !ok { seen := seen - {manifest.value.files[i].relativePath}; }
      }
      return Some(DigestPlan(codec, Rebuilt(seen, manifest.value))), seen;
    }

    // ---- decoders ------------------------------------------------------------------------------

    /** The recovery of a failed apply: put the backup directory's files back. Its own calls do not fail. */
    method RestoreBackupTree(listing: Tree<Bytes>, ghost dir: Content)
      requires Lists(listing, dir)
      modifies `live
      ensures Decoded(old(live), dir, live)
    {
      hide Visiting, Lists, Leaves, StackLeaves, StackSize, IsMarker, Stem, Decoded, Covers, Items;
      DecodedNothing(live);
      VisitStart(listing);
      var stack := [Item([], listing)];
      ghost var visited: seq<(Path, Bytes)>, done: Content := [], map[];
      while stack != []
        invariant Visiting(listing, stack, visited) && Covers(dir, visited, done)
        invariant Decoded(old(live), done, live)
        decreases StackSize(stack)
      {
        VisitTop(listing, stack, visited);
        var current := stack[|stack| - 1];
        stack := stack[..|stack| - 1];
        match current.node {
          case Dir(children) =>
            stack := stack + Items(children, current.path);
          case Leaf(bytes) =>
            CoverOne(listing, dir, visited, done, (current.path, bytes));
            var relative := Join(current.path);
            DecodeStep(old(live), done, live, relative, bytes);
            if IsMarker(relative) {
              live := live - {Stem(relative)};
            } else {
              live := live[relative := bytes];
            }
            visited, done := visited + [(current.path, bytes)], done[relative := bytes];
        }
      }
      CoverAll(listing, dir, visited, done);
    }

    /** The exposed helper, which also reports what it touched. */
    method RestoreFromBackup(listing: Tree<Bytes>, ghost dir: Content) returns (restored: seq<string>)
      requires Lists(listing, dir)
      modifies `live
      ensures Decoded(old(live), dir, live)
      ensures forall name | name in dir :: Subject(name) in restored
    {
      hide Visiting, Lists, Leaves, StackLeaves, StackSize, IsMarker, Stem, Decoded, Covers, Items;
      DecodedNothing(live);
      VisitStart(listing);
      restored := [];
      var stack := [Item([], listing)];
      ghost var visited: seq<(Path, Bytes)>, done: Content := [], map[];
      while stack != []
        invariant Visiting(listing, stack, visited) && Covers(dir, visited, done)
        invariant Decoded(old(live), done, live)
        invariant forall name | name in done :: Subject(name) in restored
        decreases StackSize(stack)
      {
        VisitTop(listing, stack, visited);
        var current := stack[|stack| - 1];
        stack := stack[..|stack| - 1];
        match current.node {
          case Dir(children) =>
            stack := stack + Items(children, current.path);
          case Leaf(bytes) =>
            CoverOne(listing, dir, visited, done, (current.path, bytes));
            var relative := Join(current.path);
            DecodeStep(old(live), done, live, relative, bytes);
            if IsMarker(relative) {
              live := live - {Stem(relative)};
              restored := restored + [Stem(relative)];
            } else {
              live := live[relative := bytes];
              restored := restored + [relative];
            }
            visited, done := visited + [(current.path, bytes)], done[relative := bytes];
        }
      }
      CoverAll(listing, dir, visited, done);
    }

    // ---- the steps of an apply -----------------------------------------------------------------

    /** Every backup directory can be listed, and is listed as it is. */
    ghost predicate Valid()
      reads `backups
    {
      ShowsFiles(list) && forall r | r in backups :: Listable(backups[r])
    }

    /** The drift and compare-and-swap checks, given what was observed. */
    static predicate Guards(input: ApplyInput, observed: string) {
      && (input.observedDigest.Some? ==>
            input.observedDigest.value == input.previewDigest && input.observedDigest.value == observed)
      && (input.expectedDigest.Some? ==> input.expectedDigest.value == input.previewDigest)
    }

    /** Snapshot every file about to be overwritten; `made` of them are in the backup when it stops. */
    method MakeBackup(files: seq<ManifestFile>, runId: string) returns (ok: bool, ghost made: nat)
      requires runId in backups && Listable(backups[runId])
      modifies `clock, `failures, `backups
      ensures Counts(old(clock), old(failures))
      ensures runId in backups && backups == old(backups)[runId := backups[runId]] && Listable(backups[runId])
      ensures made <= Room(old(backups[runId]), live, files) && (ok ==> made == |files|)
      ensures failures == old(failures) ==> made == Room(old(backups[runId]), live, files)
      ensures backups[runId] == Encode(old(backups[runId]), live, files[..made])
      ensures failures == old(failures) ==> (ok <==> Listable(Encode(old(backups[runId]), live, files)))
    {
      hide Encode, Fits, Listable, BackupName, BackupBytes, RoomFrom;
      var dir := backups[runId];
      ghost var stale := dir;
      made := 0;
      NothingYet(stale, live);
      assert files[..0] == [];
      for i := 0 to |files|
        invariant Counts(old(clock), old(failures))
        invariant made == i && backups == old(backups)[runId := dir] && Listable(dir)
        invariant dir == Encode(stale, live, files[..i])
        invariant Room(stale, live, files) == RoomFrom(stale, live, files, i)
      {
        RoomStep(stale, live, files, i);
        var path := files[i].relativePath;
        EncodeStep(stale, live, files, i);
        if Listable(Encode(stale, live, files)) { EncodeFits(stale, live, files, i); }
        var name, bytes := BackupName(live, path), BackupBytes(live, path);
        var done := Io(2); // read and write, or mkdir and write of a marker
        if !done || !Fits(dir, name) { return false, made; }
        ListableGrows(dir, name, bytes);
        dir := dir[name := bytes];
        backups := backups[runId := dir];
        made := i + 1;
      }
      assert files[..|files|] == files;
      ok := true;
    }

    /** The declared digest is that of the bytes, and the path can be written. */
    predicate Stageable(files: seq<ManifestFile>) {
      forall f | f in files :: !EndsInSlash(f.relativePath) && sha(f.bytes) == f.sha256
    }

    lemma StageableNone()
      ensures Stageable([])
    {
    }

    lemma StageableStep(files: seq<ManifestFile>, i: nat)
      requires i < |files|
      ensures Stageable(files[..i + 1]) <==>
        Stageable(files[..i]) && !EndsInSlash(files[i].relativePath) && sha(files[i].bytes) == files[i].sha256
      ensures Stageable(files) ==> Stageable(files[..i + 1])
    {
      assert files[..i + 1] == files[..i] + [files[i]];
    }

    method StageFiles(files: seq<ManifestFile>, runId: string) returns (ok: bool)
      requires runId in staging
      modifies `clock, `failures, `staging
      ensures Counts(old(clock), old(failures))
      ensures runId in staging && staging == old(staging)[runId := staging[runId]]
      ensures ok ==> staging[runId] == Applied(old(staging[runId]), files) && Stageable(files)
      ensures failures == old(failures) ==> (ok <==> Stageable(files))
    {
      hide Clear;
      ClearJoins(faults);
      hide Applied, Stageable, EndsInSlash;
      var dir := staging[runId];
      StageableNone();
      NothingYet(map[], dir);
      assert files[..0] == [];
      for i := 0 to |files|
        invariant Counts(old(clock), old(failures))
        invariant staging == old(staging)[runId := dir]
        invariant dir == Applied(old(staging[runId]), files[..i])
        invariant Stageable(files[..i])
      {
        var f := files[i];
        AppliedStep(old(staging[runId]), files, i);
        StageableStep(files, i);
        ok := Io(2); // mkdir, write
        if !ok || EndsInSlash(f.relativePath) { return false; }
        dir := dir[f.relativePath := f.bytes];
        staging := staging[runId := dir];
        ok := Io(1); // read back
        if !ok || sha(dir[f.relativePath]) != f.sha256 { return false; }
      }
      assert files[..|files|] == files;
      ok := true;
    }

    /** Set the mode of a renamed file, which may fail, and read it back. */
    method Settle(f: ManifestFile) returns (ok: bool)
      requires f.relativePath in live
      modifies `clock, `failures
      ensures Counts(old(clock), old(failures))
      ensures ok ==> sha(live[f.relativePath]) == f.sha256
      ensures failures == old(failures) ==> (ok <==> sha(live[f.relativePath]) == f.sha256)
    {
      ok := Io(1); // chmod: best effort
      ok := Io(1); // read back
      if sha(live[f.relativePath]) != f.sha256 { ok := false; }
    }

    /** The i-th file, once renamed, reads back as declared. */
    predicate Settles(files: seq<ManifestFile>, i: nat)
      requires i < |files|
    {
      var p := files[i].relativePath;
      p in Planned(files) && sha(Planned(files)[p]) == files[i].sha256
    }

    /** How many of the staged files, from the i-th on, can be renamed. */
    function FarFrom(files: seq<ManifestFile>, i: nat): (n: nat)
      requires i <= |files|
      ensures i <= n <= |files|
      decreases |files| - i
    {
      if i == |files| || !DistinctPlan(files[..i + 1]) then i
      else if !Settles(files, i) then i + 1
      else FarFrom(files, i + 1)
    }

    lemma FarStep(files: seq<ManifestFile>, i: nat)
      requires i < |files|
      ensures FarFrom(files, i)
           == if !DistinctPlan(files[..i + 1]) then i else if !Settles(files, i) then i + 1 else FarFrom(files, i + 1)
    {
      hide Settles, DistinctPlan;
    }

    /** How many of the files can get to be renamed: of a plan that cannot be staged, none. */
    function Far(files: seq<ManifestFile>): (n: nat)
      ensures n <= |files|
    {
      if Stageable(files) then FarFrom(files, 0) else 0
    }

    /** And given what the backup directory holds: none unless all files can be backed up. */
    function Renamable(stale: Content, live: Content, files: seq<ManifestFile>): (n: nat)
      ensures Reach(files, Room(stale, live, files), n)
    {
      if Room(stale, live, files) < |files| then 0 else Far(files)
    }

    /** A failed apply of this plan can be undone at every point within its reach. */
    ghost predicate Recoverable(stale: Content, live: Content, files: seq<ManifestFile>) {
      Truthful(stale, live) && Harmless(live, files, Room(stale, live, files), Renamable(stale, live, files))
    }

    /** Exactly then is what was there recovered at each of these points, in every visiting order. */
    lemma {:induction false} RecoverableExactly(stale: Content, live: Content, files: seq<ManifestFile>)
      ensures
        var room, far := Room(stale, live, files), Renamable(stale, live, files);
        Recoverable(stale, live, files) <==> forall k, j, after :: Restores(stale, live, files, room, far, k, j, after)
      ensures NoMarkerNames(live, files) && Truthful(stale, live) ==> Recoverable(stale, live, files)
    {
      hide Truthful, Harmless, Restores, NoMarkerNames;
      var room, far := Room(stale, live, files), Renamable(stale, live, files);
      DecodableExactly(stale, live, files, room, far);
      if NoMarkerNames(live, files) { NoMarkerNamesHarmless(live, files, room, far); }
    }

    lemma StagedDigest(files: seq<ManifestFile>, i: nat)
      requires i < |files| && Stageable(files)
      ensures sha(files[i].bytes) == files[i].sha256
    {
      assert files[i] in files;
    }

    /** Rename the staged files into place; `moved` of them are when it stops. */
    method RenameFiles(files: seq<ManifestFile>, runId: string, ghost staged: Content)
      returns (ok: bool, ghost moved: nat)
      requires runId in staging && staging[runId] == Applied(staged, files) && Stageable(files)
      modifies `clock, `failures, `staging, `live
      ensures Counts(old(clock), old(failures))
      ensures runId in staging && staging == old(staging)[runId := staging[runId]]
      ensures moved <= Far(files) && DistinctPlan(files[..moved]) && live == Renamed(old(live), files, moved)
      ensures failures == old(failures) ==> moved == Far(files)
      ensures ok ==> DistinctPlan(files) && live == Applied(old(live), files)
      ensures failures == old(failures) ==> (ok <==> DistinctPlan(files))
    {
      hide Applied, Planned, DistinctPlan, PathsIn, Renamed, FarFrom, Stageable;
      ghost var before := live;
      NothingYet(map[], before);
      NothingRenamed(before, files);
      assert files[..0] == [];
      moved := 0;
      var left := staging[runId];
      for i := 0 to |files|
        invariant Counts(old(clock), old(failures))
        invariant moved == i && DistinctPlan(files[..i])
        invariant staging == old(staging)[runId := left]
        invariant left == Applied(staged, files) - PathsIn(files[..i])
        invariant live == Renamed(before, files, i) && Far(files) == FarFrom(files, i)
      {
        var f := files[i];
        FarStep(files, i);
        StagedDigest(files, i);
        StagedStep(staged, files, i, left);
        RenamedStep(before, files, i);
        ok := Io(2); // mkdir, rename
        if !ok || f.relativePath !in left { return false, moved; }
        live := live[f.relativePath := left[f.relativePath]];
        moved := i + 1;
        left := left - {f.relativePath};
        staging := staging[runId := left];
        ok := Settle(f);
        if !ok { return false, moved; }
      }
      assert files[..|files|] == files;
      AllRenamed(before, files);
      ok := true;
    }

    /** Compare the live target with what the caller and the preview expect. */
    method CheckDrift(input: ApplyInput) returns (ok: bool, ghost readable: Content)
      modifies `clock, `failures
      ensures Counts(old(clock), old(failures))
      ensures forall p | p in readable :: p in live && readable[p] == live[p]
      ensures ok && input.observedDigest.Some? ==>
        && input.observedDigest.value == input.previewDigest
        && input.previewDigest in {NO_MANIFEST, ObservedDigest(codec, manifest, readable)}
      ensures failures == old(failures) ==>
        (ok <==> RootFine(manifest) && Guards(input, ObservedDigest(codec, manifest, live)))
    {
      hide ObservedDigest;
      var digest;
      digest, readable := ObservedManifestDigest();
      if digest == None { return false, readable; }
      if input.observedDigest.Some? && input.observedDigest.value != input.previewDigest { return false, readable; }
      if input.observedDigest.Some? && input.observedDigest.value != digest.value { return false, readable; }
      if input.expectedDigest.Some? && input.expectedDigest.value != input.previewDigest { return false, readable; }
      ok := true;
    }

    predicate RootFine(m: Option<ManifestV1>) {
      m.Some? ==> rootOk(m.value.targetRoot)
    }

    /** Stage, then rename into place. */
    method Install(files: seq<ManifestFile>, runId: string) returns (ok: bool, ghost moved: nat)
      modifies `clock, `failures, `staging, `live
      ensures Counts(old(clock), old(failures))
      ensures staging - {runId} == old(staging) - {runId}
      ensures moved <= Far(files) && DistinctPlan(files[..moved]) && live == Renamed(old(live), files, moved)
      ensures failures == old(failures) ==> moved == Far(files)
      ensures ok ==> DistinctPlan(files) && live == Applied(old(live), files)
      ensures failures == old(failures) ==> (ok <==> Stageable(files) && DistinctPlan(files))
    {
      hide Clear;
      ClearJoins(faults);
      hide PathsIn, DistinctPlan, Applied, Stageable, Renamed, FarFrom;
      NothingYet(map[], live);
      NothingRenamed(live, files);
      assert files[..0] == [];
      moved := 0;
      ok := Io(1);
      if !ok { return; }
      staging := staging[runId := DirOf(staging, runId)];
      ghost var staged := staging[runId];
      ok := StageFiles(files, runId);
      assert Counts(old(clock), old(failures));
      if !ok { return; }
      ok, moved := RenameFiles(files, runId, staged);
    }

    /** Write the manifest, check it against the preview, audit, register. */
    method Record(input: ApplyInput, runId: string) returns (ok: bool, written: bool)
      modifies `clock, `failures, `manifest, `audits, `runs
      ensures Counts(old(clock), old(failures))
      ensures manifest == if written then Some(Canonical(codec, Stamped(input.plan, runId))) else old(manifest)
      ensures ok ==>
        written && audits == old(audits) + [runId] && runs == old(runs)[runId := RunRecord(root, KeyOf(input))]
      ensures !ok ==> audits == old(audits) && runs == old(runs)
      ensures failures == old(failures) ==> written && (ok <==> ManifestAgrees(input, runId, live))
    {
      hide ObservedDigest;
      written := false;
      ok := Io(2); // mkdir, write
      if !ok { return; }
      manifest := Some(Canonical(codec, Stamped(input.plan, runId)));
      written := true;
      var digest, readable := ObservedManifestDigest();
      if digest == None || digest.value != input.previewDigest { return false, written; }
      ok := Io(1); // audit append
      if !ok { return; }
      audits := audits + [runId];
      runs := runs[runId := RunRecord(root, KeyOf(input))];
    }

    static function RunIdOf(input: ApplyInput, fallbackRunId: string): string {
      if input.plan.runId.Some? then input.plan.runId.value else fallbackRunId
    }

    static function KeyOf(input: ApplyInput): LockKey {
      LockKey(input.lockDir, input.plan.harness, input.plan.profileId)
    }

    /** The manifest of this plan over these live files has the digest of the preview. */
    ghost predicate ManifestAgrees(input: ApplyInput, runId: string, live: Content) {
      && rootOk(input.plan.targetRoot)
      && ObservedDigest(codec, Some(Canonical(codec, Stamped(input.plan, runId))), live) == input.previewDigest
    }

    /** The preview of a plan with this run id, and a target and a library it can be checked against. */
    ghost predicate Previewed(input: ApplyInput, runId: string) {
      && input.plan.runId == Some(runId) && input.previewDigest == DigestPlan(codec, input.plan)
      && rootOk(input.plan.targetRoot) && OrdersPaths(codec, input.plan.files)
    }

    /** Once its files are in place, a plan previewed under its own run id has the digest of the preview. */
    lemma PreviewAgrees(input: ApplyInput, runId: string, live: Content)
      requires Previewed(input, runId)
      ensures ManifestAgrees(input, runId, Applied(live, input.plan.files))
      ensures Stamped(input.plan, runId) == input.plan
    {
      hide OrdersPaths, ObservedDigest, Canonical, DigestPlan, Planned;
      var after := Applied(live, input.plan.files);
      DistinctOfOrder(input.plan.files);
      assert Undrifted(after, input.plan) by {
        forall f | f in input.plan.files ensures LiveBytes(after, f.relativePath) == f.bytes {
          var i :| 0 <= i < |input.plan.files| && input.plan.files[i] == f;
          PlannedAt(input.plan.files, i);
        }
      }
      assert Stamped(input.plan, runId) == input.plan;
      OwnDigest(codec, input.plan, after);
    }

    lemma DistinctOfOrder(files: seq<ManifestFile>)
      ensures OrdersPaths(codec, files) ==> DistinctPlan(files)
    {
    }

    /**
     * A preview taken before the run id is known is of another manifest than the one an apply writes: it agrees
     * with no target over which the hash tells the two apart.
     */
    lemma UnstampedNeverAgrees(input: ApplyInput, runId: string, live: Content)
      requires input.plan.runId == None && input.previewDigest == DigestPlan(codec, input.plan)
      requires TellsApart(codec, Rebuilt(live, Canonical(codec, Stamped(input.plan, runId))), input.plan)
      ensures !ManifestAgrees(input, runId, live)
    {
    }

    lemma OrdinaryReady(input: ApplyInput, stale: Content, before: Option<ManifestV1>, live: Content)
      ensures
        && input.plan.runId.Some? && Previewed(input, input.plan.runId.value)
        && Stageable(input.plan.files) && Listable(Encode(stale, live, input.plan.files))
        && (before.Some? ==> rootOk(before.value.targetRoot))
        && input.observedDigest == None && input.expectedDigest in {None, Some(input.previewDigest)} ==>
          && Ready(input, input.plan.runId.value, stale, before, live)
          && Stamped(input.plan, input.plan.runId.value) == input.plan
    {
      hide OrdersPaths, DistinctPlan, Applied, ObservedDigest, ManifestAgrees, Stageable, Listable, Encode;
      hide DigestPlan, Canonical;
      if input.plan.runId.Some? && Previewed(input, input.plan.runId.value) {
        DistinctOfOrder(input.plan.files);
        PreviewAgrees(input, input.plan.runId.value, live);
      }
    }

    /** Everything after the backup: install the files, then record that they are. */
    method Publish(input: ApplyInput, runId: string) returns (ok: bool, written: bool, ghost moved: nat)
      modifies `clock, `failures, `live, `staging, `manifest, `audits, `runs
      ensures Counts(old(clock), old(failures))
      ensures staging - {runId} == old(staging) - {runId}
      ensures moved <= Far(input.plan.files) && DistinctPlan(input.plan.files[..moved])
      ensures failures == old(failures) ==> moved == Far(input.plan.files)
      ensures live == Renamed(old(live), input.plan.files, moved)
      ensures manifest == if written then Some(Canonical(codec, Stamped(input.plan, runId))) else old(manifest)
      ensures ok ==>
        && written && DistinctPlan(input.plan.files) && live == Applied(old(live), input.plan.files)
        && audits == old(audits) + [runId] && runs == old(runs)[runId := RunRecord(root, KeyOf(input))]
      ensures !ok ==> audits == old(audits) && runs == old(runs)
      ensures failures == old(failures) ==>
        && (written <==> Stageable(input.plan.files) && DistinctPlan(input.plan.files))
        && (ok <==> written && ManifestAgrees(input, runId, Applied(old(live), input.plan.files)))
    {
      hide DistinctPlan, Applied, Stageable, ObservedDigest, Canonical, Renamed, ManifestAgrees, Far;
      written := false;
      ok, moved := Install(input.plan.files, runId);
      if !ok { return; }
      ok, written := Record(input, runId);
    }

    /** The checks and the backup: everything before the first change to a live file. */
    method Preserve(input: ApplyInput, runId: string)
      returns (ok: bool, backupDir: bool, ghost made: nat, ghost readable: Content)
      requires Valid()
      modifies `clock, `failures, `backups
      ensures Valid() && Counts(old(clock), old(failures))
      ensures backups - {runId} == old(backups) - {runId}
      ensures !backupDir ==> backups == old(backups)
      ensures made <= Room(DirOf(old(backups), runId), live, input.plan.files)
      ensures ok ==> backupDir && runId in backups && made == |input.plan.files|
      ensures runId in old(backups) ==> runId in backups
      ensures runId in backups ==> backups[runId] == Encode(DirOf(old(backups), runId), live, input.plan.files[..made])
      ensures forall q | q in readable :: q in live && readable[q] == live[q]
      ensures ok && input.observedDigest.Some? ==>
        && input.observedDigest.value == input.previewDigest
        && input.previewDigest in {NO_MANIFEST, ObservedDigest(codec, manifest, readable)}
      ensures failures == old(failures) ==>
        && (backupDir <==> RootFine(manifest) && Guards(input, ObservedDigest(codec, manifest, live)))
        && (ok <==> backupDir && Listable(Encode(DirOf(old(backups), runId), live, input.plan.files)))
    {
      hide Clear;
      ClearJoins(faults);
      hide Encode, ObservedDigest, Listable, ShowsFiles, RootFine, Guards, Room;
      EmptyListable();
      made, backupDir := 0, false;
      NothingYet(DirOf(backups, runId), live);
      assert input.plan.files[..0] == [];
      ok, readable := CheckDrift(input);
      if !ok { return; }
      backupDir := true;
      ok := Io(1);
      if !ok { return; }
      backups := backups[runId := DirOf(backups, runId)];
      ok, made := MakeBackup(input.plan.files, runId);
    }

    /** The try block, up to the point where it returns or throws. */
    method Pipeline(input: ApplyInput, runId: string)
      returns (p: Progress, ghost made: nat, ghost moved: nat, ghost readable: Content)
      requires Valid()
      modifies `clock, `failures, `live, `backups, `staging, `manifest, `audits, `runs
      ensures Valid() && Counts(old(clock), old(failures))
      ensures backups - {runId} == old(backups) - {runId} && staging - {runId} == old(staging) - {runId}
      ensures made <= Room(DirOf(old(backups), runId), old(live), input.plan.files) && moved <= Far(input.plan.files)
      ensures made < |input.plan.files| ==> moved == 0
      ensures DistinctPlan(input.plan.files[..moved]) && live == Renamed(old(live), input.plan.files, moved)
      ensures runId in old(backups) ==> runId in backups
      ensures if runId in backups
        then backups[runId] == Encode(DirOf(old(backups), runId), old(live), input.plan.files[..made])
        else live == old(live)
      ensures !p.backupDir ==> live == old(live) && backups == old(backups)
      ensures !p.stageDir ==> staging == old(staging)
      ensures p.stageDir || p.manifestWritten ==> p.backupDir
      ensures manifest
           == if p.manifestWritten then Some(Canonical(codec, Stamped(input.plan, runId))) else old(manifest)
      ensures p.finished ==>
        && p.backupDir && p.stageDir && p.manifestWritten && runId in backups && made == |input.plan.files|
        && DistinctPlan(input.plan.files) && live == Applied(old(live), input.plan.files)
        && audits == old(audits) + [runId] && runs == old(runs)[runId := RunRecord(root, KeyOf(input))]
      ensures !p.finished ==> audits == old(audits) && runs == old(runs)
      ensures forall q | q in readable :: q in old(live) && readable[q] == old(live)[q]
      ensures p.finished && input.observedDigest.Some? ==>
        && input.observedDigest.value == input.previewDigest
        && input.previewDigest in {NO_MANIFEST, ObservedDigest(codec, old(manifest), readable)}
      ensures failures == old(failures) ==>
        && (p.backupDir <==> Checked(input, old(manifest), old(live)))
        && (p.manifestWritten <==> Prepared(input, DirOf(old(backups), runId), old(manifest), old(live)))
        && (p.finished <==> Ready(input, runId, DirOf(old(backups), runId), old(manifest), old(live)))
    {
      hide DistinctPlan, Applied, Stageable, Encode, ObservedDigest, Canonical, Listable, ShowsFiles, Renamed;
      hide Guards, RootFine, ManifestAgrees, Room, Far;
      NothingYet(map[], live);
      NothingRenamed(live, input.plan.files);
      assert input.plan.files[..0] == [];
      p := Progress(false, false, false, false);
      moved := 0;
      var ok, backupDir;
      ok, backupDir, made, readable := Preserve(input, runId);
      p := p.(backupDir := backupDir);
      if !ok { return; }
      p := p.(stageDir := true);
      var written;
      ok, written, moved := Publish(input, runId);
      p := p.(finished := ok, manifestWritten := written);
    }

    /** What the pipeline checks before it backs anything up. */
    predicate Checked(input: ApplyInput, before: Option<ManifestV1>, live: Content) {
      RootFine(before) && Guards(input, ObservedDigest(codec, before, live))
    }

    /** What the pipeline checks before it writes a manifest, given what the backup directory held before. */
    ghost predicate Prepared(input: ApplyInput, stale: Content, before: Option<ManifestV1>, live: Content) {
      && Checked(input, before, live) && Listable(Encode(stale, live, input.plan.files))
      && Stageable(input.plan.files) && DistinctPlan(input.plan.files)
    }

    ghost predicate Ready(input: ApplyInput, runId: string, stale: Content, before: Option<ManifestV1>, live: Content) {
      && Prepared(input, stale, before, live)
      && ManifestAgrees(input, runId, Applied(live, input.plan.files))
    }

    /** What an apply without a fault cannot have succeeded without. */
    lemma ReadyMeans(input: ApplyInput, runId: string, stale: Content, before: Option<ManifestV1>, live: Content)
      ensures Ready(input, runId, stale, before, live) ==>
        && (before.Some? ==> rootOk(before.value.targetRoot))
        && (input.expectedDigest.Some? ==> input.expectedDigest.value == input.previewDigest)
        && forall f | f in input.plan.files ::
             sha(f.bytes) == f.sha256 && (f.relativePath != "" ==> f.relativePath[|f.relativePath| - 1] != '/')
    {
      hide DistinctPlan, Listable, ObservedDigest, ManifestAgrees, Applied, Encode;
    }

    lemma EmptyListable()
      ensures Listable<Bytes>(map[])
    {
    }

    // ---- apply ---------------------------------------------------------------------------------

    /** The catch block's recovery: decode the backup directory if it is there, and remove it. */
    method Recover(
        files: seq<ManifestFile>, runId: string, ghost stale: Content, ghost before: Content, ghost made: nat,
        ghost moved: nat)
      requires Valid() && runId in backups && made <= Room(stale, before, files)
      requires moved <= Far(files) && (made < |files| ==> moved == 0)
      requires backups[runId] == Encode(stale, before, files[..made]) && live == Renamed(before, files, moved)
      modifies `live, `backups
      ensures Valid() && backups == old(backups) - {runId}
      ensures Recoverable(stale, before, files) ==> live == before
    {
      hide Encode, Harmless, Decoded, Lists, Truthful, Renamed, Room, Far;
      RestoreBackupTree(list(backups[runId]), backups[runId]);
      ghost var room, far := Room(stale, before, files), Renamable(stale, before, files);
      if Recoverable(stale, before, files) {
        RecoverEncoded(stale, before, files, room, far, made, moved, live);
      }
      backups := backups - {runId};
    }

    /** The try, catch and finally blocks, but for the lock. */
    method Transact(input: ApplyInput, runId: string) returns (p: Progress, ghost readable: Content)
      requires Valid()
      modifies `clock, `failures, `live, `backups, `staging, `manifest, `audits, `runs
      ensures Valid() && Counts(old(clock), old(failures))
      ensures p.finished ==>
        && DistinctPlan(input.plan.files) && live == Applied(old(live), input.plan.files)
        && manifest == Some(Canonical(codec, Stamped(input.plan, runId)))
        && runs == old(runs)[runId := RunRecord(root, KeyOf(input))] && audits == old(audits) + [runId]
        && backups == old(backups)[runId := Encode(DirOf(old(backups), runId), old(live), input.plan.files)]
      ensures !p.finished ==>
        && runs == old(runs) && audits == old(audits)
        && manifest == (if p.manifestWritten then None else old(manifest))
        && (backups == old(backups) || backups == old(backups) - {runId})
        && (Recoverable(DirOf(old(backups), runId), old(live), input.plan.files) || !p.backupDir ==> live == old(live))
        && (!p.backupDir ==> backups == old(backups) && staging == old(staging))
      ensures p.finished || p.manifestWritten ==> p.backupDir
      ensures staging == old(staging) || staging == old(staging) - {runId}
      ensures forall q | q in readable :: q in old(live) && readable[q] == old(live)[q]
      ensures p.finished && input.observedDigest.Some? ==>
        && input.observedDigest.value == input.previewDigest
        && input.previewDigest in {NO_MANIFEST, ObservedDigest(codec, old(manifest), readable)}
      ensures failures == old(failures) ==>
        && (p.backupDir <==> Checked(input, old(manifest), old(live)))
        && (p.manifestWritten <==> Prepared(input, DirOf(old(backups), runId), old(manifest), old(live)))
        && (p.finished <==> Ready(input, runId, DirOf(old(backups), runId), old(manifest), old(live)))
    {
      hide DistinctPlan, Applied, Encode, ObservedDigest, Canonical, Ready, Prepared, Checked, Recoverable, Valid,
        Renamed, Room, Far;
      ghost var stale := DirOf(backups, runId);
      ghost var before := live;
      ghost var made: nat, moved: nat;
      p, made, moved, readable := Pipeline(input, runId);
      if p.finished {
        assert input.plan.files[..made] == input.plan.files;
        UpdatedAt(old(backups), backups, runId);
      } else {
        if p.manifestWritten { manifest := None; }
        if p.backupDir && runId in backups {
          Removed(old(backups), backups, runId);
          Recover(input.plan.files, runId, stale, before, made, moved);
        } else {
          Removed(old(backups), backups, runId);
        }
      }
      if p.stageDir { staging := staging - {runId}; }
    }

    /**
     * A throw at any point leaves the live files as they were, if it comes before the backup or the plan is
     * `Recoverable`: the run's backup directory told only the truth about them before (an empty or absent one
     * does), and every file named `*.deleted` that gets to be overwritten is harmless. What a throw does not give
     * back is the manifest: once it was written it is removed, and the one before it is lost. Without a fault it
     * returns exactly when all its checks pass, and loses the manifest exactly when only the last of them, on the
     * digest of the new one, does not.
     */
    method ApplyPlan(input: ApplyInput, fallbackRunId: string) returns (r: ApplyResult, ghost readable: Content)
      requires Valid()
      modifies this
      ensures Valid()
      ensures r.Done? ==>
        && r.runId == RunIdOf(input, fallbackRunId) && DistinctPlan(input.plan.files)
        && live == Applied(old(live), input.plan.files)
        && manifest == Some(Canonical(codec, Stamped(input.plan, r.runId)))
        && runs == old(runs)[r.runId := RunRecord(root, KeyOf(input))] && audits == old(audits) + [r.runId]
        && backups == old(backups)[r.runId := Encode(DirOf(old(backups), r.runId), old(live), input.plan.files)]
      ensures r.Done? ==> r.runId == match input.plan.runId case Some(id) => id case None => fallbackRunId
      ensures failures == old(failures) && r.Done? ==>
        && (old(manifest).Some? ==> rootOk(old(manifest).value.targetRoot))
        && (input.expectedDigest.Some? ==> input.expectedDigest.value == input.previewDigest)
        && forall f | f in input.plan.files ::
             sha(f.bytes) == f.sha256 && (f.relativePath != "" ==> f.relativePath[|f.relativePath| - 1] != '/')
      ensures
        && failures == old(failures) && input.plan.runId.Some? && Previewed(input, input.plan.runId.value)
        && ValidFiles(input.plan.files) && ValidProfile(input.plan.profileId) && Stageable(input.plan.files)
        && LockKey(input.lockDir, input.plan.harness, input.plan.profileId) !in old(locks)
        && Listable(Encode(DirOf(old(backups), input.plan.runId.value), old(live), input.plan.files))
        && (old(manifest).Some? ==> rootOk(old(manifest).value.targetRoot))
        && input.observedDigest == None && input.expectedDigest in {None, Some(input.previewDigest)} ==>
          && r == Done(input.plan.runId.value) && manifest == Some(Canonical(codec, input.plan))
          && r.runId in runs && runs[r.runId].targetRoot == root
          && runs[r.runId].lock == LockKey(input.lockDir, input.plan.harness, input.plan.profileId)
      ensures r.Threw? ==> runs == old(runs) && audits == old(audits)
      ensures r.Threw? ==> manifest == (if r.stage == AfterManifest then None else old(manifest))
      ensures r.Threw? ==> backups == old(backups) || backups == old(backups) - {RunIdOf(input, fallbackRunId)}
      ensures
        r.Threw? && Recoverable(DirOf(old(backups), RunIdOf(input, fallbackRunId)), old(live), input.plan.files) ==>
          live == old(live)
      ensures r.Threw? && r.stage in {Invalid, LockHeld, LockLeaked, Unprepared} ==>
        live == old(live) && backups == old(backups) && staging == old(staging)
      ensures staging == old(staging) || staging == old(staging) - {RunIdOf(input, fallbackRunId)}
      ensures Counts(old(clock), old(failures))
      ensures failures == old(failures) ==>
        var runId := RunIdOf(input, fallbackRunId);
        (r.Done? <==>
          && ValidFiles(input.plan.files) && ValidProfile(input.plan.profileId) && KeyOf(input) !in old(locks)
          && Ready(input, runId, DirOf(old(backups), runId), old(manifest), old(live)))
      ensures failures == old(failures) ==>
        (r == Threw(Unprepared) <==>
          && ValidFiles(input.plan.files) && ValidProfile(input.plan.profileId) && KeyOf(input) !in old(locks)
          && !Checked(input, old(manifest), old(live)))
      ensures r == Threw(LockLeaked) <==>
        && ValidFiles(input.plan.files) && ValidProfile(input.plan.profileId) && KeyOf(input) !in old(locks)
        && Clear(faults, old(clock), old(clock) + 2) && faults(old(clock) + 2)
      ensures failures == old(failures) ==>
        var runId := RunIdOf(input, fallbackRunId);
        (r == Threw(AfterManifest) <==>
          && ValidFiles(input.plan.files) && ValidProfile(input.plan.profileId) && KeyOf(input) !in old(locks)
          && Prepared(input, DirOf(old(backups), runId), old(manifest), old(live))
          && !ManifestAgrees(input, runId, Applied(old(live), input.plan.files)))
      ensures locks == (if r == Threw(LockLeaked) then old(locks) + {KeyOf(input)} else old(locks))
      ensures KeyOf(input) in old(locks) ==> r.Threw?
      ensures forall q | q in readable :: q in old(live) && readable[q] == old(live)[q]
      ensures r.Done? && input.observedDigest.Some? ==>
        && input.observedDigest.value == input.previewDigest
        && input.previewDigest in {NO_MANIFEST, ObservedDigest(codec, old(manifest), readable)}
    {
      hide DistinctPlan, Applied, Encode, ObservedDigest, Canonical, Prepared, ManifestAgrees, Checked, Recoverable;
      hide ValidFiles, ValidProfile, Valid;
      readable := live;
      if !ValidFiles(input.plan.files) { return Threw(Invalid), readable; }
      var runId := RunIdOf(input, fallbackRunId);
      OrdinaryReady(input, DirOf(backups, runId), manifest, live);
      ReadyMeans(input, runId, DirOf(backups, runId), manifest, live);
      var key := KeyOf(input);
      var refused := AcquireLock(key);
      if refused.Some? { return Threw(refused.value), readable; }
      var p;
      p, readable := Transact(input, runId);
      locks := locks - {key};
      if p.finished { return Done(runId), readable; }
      r := Threw(if p.manifestWritten then AfterManifest else if p.backupDir then BeforeManifest else Unprepared);
    }

    // ---- rollback ------------------------------------------------------------------------------

    /**
     * The rollback's own walk, which tests the suffix on full paths. A copy that fails stops it; a node whose
     * `stat` or listing fails is passed over, with all that is below it.
     */
    method DecodeBackup(listing: Tree<Bytes>, backupDir: string, ghost dir: Content)
      returns (ok: bool, restored: seq<string>, ghost kept: Content)
      requires Lists(listing, dir)
      modifies `clock, `failures, `live
      ensures Counts(old(clock), old(failures)) && clock <= old(clock) + 3 * Size(listing)
      ensures PartOf(kept, dir) && Decoded(old(live), kept, live)
      ensures forall n | n in restored :: n in Subjects(dir)
      ensures forall name | name in kept :: Subject(name) in restored
      ensures failures == old(failures) ==> ok && kept == dir
      ensures faults(old(clock)) ==> ok && kept == map[] && restored == [] && clock > old(clock)
    {
      hide Visiting, Lists, Leaves, StackLeaves, StackSize, IsMarker, Stem, Decoded, Covers, Items, Subjects, Subject;
      DecodedNothing(live);
      OneStacked(listing);
      VisitStart(listing);
      restored := [];
      var stack := [Item([], listing)];
      ghost var seen: seq<(Path, Bytes)> := [];
      kept := map[];
      while stack != []
        invariant Counts(old(clock), old(failures)) && Visiting(listing, stack, seen)
        invariant clock + 3 * StackSize(stack) <= old(clock) + 3 * Size(listing)
        invariant PartOf(kept, dir) && Decoded(old(live), kept, live)
        invariant failures == old(failures) ==> Covers(dir, seen, kept)
        invariant forall name | name in kept :: Subject(name) in restored
        invariant forall n | n in restored :: n in Subjects(dir)
        invariant faults(old(clock)) ==>
          kept == map[] && restored == [] && if clock == old(clock) then |stack| == 1 else stack == []
        decreases StackSize(stack)
      {
        VisitTop(listing, stack, seen);
        SkipTop(listing, stack, seen);
        var top := stack[|stack| - 1];
        stack := stack[..|stack| - 1];
        var read := Io(if top.node.Dir? then 2 else 1); // stat, and readdir of a directory
        if !read {
          seen := seen + Leaves(top.node, top.path);
        } else {
          match top.node {
            case Dir(children) =>
              stack := stack + Items(children, top.path);
            case Leaf(bytes) =>
              LeafNamed(listing, dir, (top.path, bytes));
              if failures == old(failures) { CoverOne(listing, dir, seen, kept, (top.path, bytes)); }
              var relative := Join(top.path);
              var current := backupDir + [SLASH] + relative;
              SubjectIn(dir, relative);
              SameSuffix(backupDir, relative);
              DecodeStep(old(live), kept, live, relative, bytes);
              if IsMarker(current) {
                var removed := Io(1); // best effort
                if removed {
                  live := live - {Stem(relative)};
                  kept := kept[relative := bytes];
                }
                restored := restored + [Stem(relative)];
              } else {
                ok := Io(2); // mkdir, copy
                if !ok { return; }
                live := live[relative := bytes];
                kept := kept[relative := bytes];
                restored := restored + [relative];
              }
              seen := seen + [(top.path, bytes)];
          }
        }
      }
      if failures == old(failures) { CoverAll(listing, dir, seen, kept); }
      ok := true;
    }

    lemma NoPart(dir: Content)
      ensures PartOf(map[], dir)
    {
    }

    lemma DecodedElsewhere(before: Content, kept: Content, dir: Content, after: Content)
      requires Decoded(before, kept, after) && PartOf(kept, dir)
      ensures AgreeOutside(after, before, Subjects(dir))
    {
      forall p | p !in Subjects(dir) ensures SameAt(after, before, p) {
        assert DecodedAt(before, kept, after, p);
        MarkerStem(p);
        if p in dir { SubjectIn(dir, p); }
        if Marker(p) in dir { SubjectIn(dir, Marker(p)); }
      }
    }

    /** One content is part of another. */
    static ghost predicate PartOf(kept: Content, dir: Content) {
      forall name | name in kept :: name in dir && dir[name] == kept[name]
    }

    lemma SubjectIn(dir: Content, name: string)
      requires name in dir
      ensures Subject(name) in Subjects(dir) && Subject(name) == if IsMarker(name) then Stem(name) else name
    {
    }

    /** From this call on, exactly this one fails. */
    ghost predicate OnlyFault(from: nat, at: nat) {
      forall c | c >= from :: faults(c) <==> c == at
    }

    /** The try block of a rollback: decode, until `walked`, then remove manifest and backup, then audit. */
    method Replay(runId: string) returns (ok: bool, names: seq<string>, ghost kept: Content, ghost walked: nat)
      requires Valid() && runId in backups
      modifies `clock, `failures, `live, `manifest, `backups, `audits
      ensures Valid() && Counts(old(clock), old(failures))
      ensures PartOf(kept, old(backups)[runId]) && Decoded(old(live), kept, live)
      ensures forall n | n in names :: n in Subjects(old(backups)[runId])
      ensures forall name | name in kept :: Subject(name) in names
      ensures old(clock) <= walked <= clock <= walked + 3
      ensures walked <= old(clock) + 3 * Size(list(old(backups)[runId]))
      ensures Clear(faults, old(clock), walked) ==> kept == old(backups)[runId]
      ensures failures == old(failures) ==> ok && manifest == None && backups == old(backups) - {runId}
      ensures failures == old(failures) ==> kept == old(backups)[runId]
      ensures audits == if ok then old(audits) + [runId] else old(audits)
      ensures OnlyFault(old(clock), old(clock)) ==>
        ok && live == old(live) && names == [] && manifest == None && backups == old(backups) - {runId}
    {
      hide IsMarker, Stem, Lists, Listable, Subjects, Subject, PartOf, Decoded, Valid;
      ValidLists(runId);
      ghost var dir := backups[runId];
      ok, names, kept := DecodeBackup(list(backups[runId]), root + "/.pah/backups/" + runId, dir);
      walked := clock;
      NothingDecoded(old(live), live);
      if ok { ok := CleanUp(runId); }
    }

    /** Remove manifest and backup, then audit. */
    method CleanUp(runId: string) returns (ok: bool)
      requires Valid()
      modifies `clock, `failures, `manifest, `backups, `audits
      ensures Valid() && Counts(old(clock), old(failures)) && clock <= old(clock) + 3
      ensures failures == old(failures) ==> ok && manifest == None && backups == old(backups) - {runId}
      ensures audits == if ok then old(audits) + [runId] else old(audits)
    {
      hide Listable, ShowsFiles;
      ok := Io(1); // best effort
      if ok { manifest := None; }
      ok := Io(1); // best effort
      if ok { backups := backups - {runId}; }
      ok := Io(1); // audit append
      if ok { audits := audits + [runId]; }
    }

    /**
     * Undo a registered run. At every fault point `kept` is the part of the backup that has been decoded, and
     * all of its names are reported; it is the whole backup if no call fails before `walked`, where the walk
     * ends. With no fault manifest, backup and run entry are removed. Once the lock is taken, the run entry goes
     * and the lock is released however it ends. Success is reported, and the backup removed, even where the walk
     * passed over what it could not read: if the only fault is that of the first `stat`, nothing is restored.
     */
    method RollbackPlan(runId: string) returns (r: RollbackResult, ghost kept: Content, ghost walked: nat)
      requires Valid()
      modifies this
      ensures Valid() && Counts(old(clock), old(failures))
      ensures !ValidRunId(runId) || runId !in old(runs) ==> r == Refused && manifest == old(manifest)
      ensures r == Refused ==> live == old(live) && backups == old(backups) && runs == old(runs)
      ensures runId in old(backups) ==> PartOf(kept, old(backups)[runId]) && Decoded(old(live), kept, live)
      ensures runId in old(backups) ==> AgreeOutside(live, old(live), Subjects(old(backups)[runId]))
      ensures runId !in old(backups) ==> live == old(live)
      ensures r.Restored? && runId in old(backups) ==>
        && runs == old(runs) - {runId}
        && (forall n | n in r.names :: n in Subjects(old(backups)[runId]))
        && (forall name | name in kept :: Subject(name) in r.names)
      ensures r != Refused && runId in old(backups) ==>
        && old(clock) + 3 <= walked <= clock <= walked + 3
        && walked <= old(clock) + 3 + 3 * Size(list(old(backups)[runId]))
        && (Clear(faults, old(clock), walked) ==> kept == old(backups)[runId])
      ensures r == Broken ==> runs == old(runs) - {runId}
      ensures audits == if r.Restored? && runId in old(backups) then old(audits) + [runId] else old(audits)
      ensures failures == old(failures) && Rollable(runId, old(runs), old(backups), old(locks)) ==>
        && r.Restored? && kept == old(backups)[runId]
        && manifest == None && backups == old(backups) - {runId} && runs == old(runs) - {runId}
      ensures
        Rollable(runId, old(runs), old(backups), old(locks)) && OnlyFault(old(clock), old(clock) + 3) ==>
        && r == Restored([]) && live == old(live)
        && manifest == None && backups == old(backups) - {runId} && runs == old(runs) - {runId}
      ensures r == Refused || locks == old(locks)
    {
      hide ValidRunId, ValidProfile, Decoded, IsMarker, Stem, Valid, Subjects, Subject, AgreeOutside, PartOf;
      kept, walked := map[], clock;
      DecodedNothing(live);
      if runId in backups {
        AgreeSelf(live, Subjects(backups[runId]));
        assert PartOf(map[], backups[runId]) by { NoPart(backups[runId]); }
      }
      if !ValidRunId(runId) || runId !in runs { return Refused, kept, walked; }
      var key := runs[runId].lock;
      if runId !in backups {
        var removed := Io(1); // unlink of the manifest: best effort, without the lock
        if removed { manifest := None; }
        return Restored([]), kept, walked;
      }
      var refused := AcquireLock(key);
      if refused.Some? { return Refused, kept, walked; }
      var ok, names;
      ok, names, kept, walked := Replay(runId);
      DecodedElsewhere(old(live), kept, old(backups)[runId], live);
      locks := locks - {key};
      runs := runs - {runId};
      r := if ok then Restored(names) else Broken;
    }

    /** The run is known, its backup is there and its lock can be had. */
    static predicate Rollable(
        runId: string, runs: map<string, RunRecord>, backups: map<string, Content>, locks: set<LockKey>)
    {
      && ValidRunId(runId) && runId in runs && runId in backups
      && ValidProfile(runs[runId].lock.profileId) && runs[runId].lock !in locks
    }

    lemma ValidLists(runId: string)
      requires Valid() && runId in backups
      ensures Lists(list(backups[runId]), backups[runId])
    {
    }

    lemma LeafNamed(listing: Tree<Bytes>, dir: Content, x: (Path, Bytes))
      requires Lists(listing, dir) && x in Leaves(listing, [])
      ensures x.0 != [] && Join(x.0) != "" && Join(x.0) in dir && dir[Join(x.0)] == x.1
    {
      LeavesClean(listing, [], x);
      if |x.0| == 1 { assert Join(x.0) == x.0[0] != ""; }
    }

    lemma Removed(before: map<string, Content>, after: map<string, Content>, k: string)
      requires after - {k} == before - {k}
      ensures k !in before && k !in after ==> after == before
    {
      if k !in before && k !in after {
        assert after == after - {k} && before == before - {k};
      }
    }
  }

  lemma NothingDecoded(before: Content, after: Content)
    ensures Decoded(before, map[], after) ==> after == before
  {
    if Decoded(before, map[], after) {
      forall p: string ensures SameAt(after, before, p) { assert DecodedAt(before, map[], after, p); }
      SameEverywhere(after, before);
    }
  }

  lemma DecodedNothing(live: Content)
    ensures Decoded(live, map[], live) && Covers(map[], [], map[])
    ensures forall dir: Content :: Covers(dir, [], map[])
  {
  }

  // ---- apply and rollback together -------------------------------------------------------------

  /**
   * Rolling an apply back gives every live file its old existence and bytes, whatever has been written to
   * the plan's paths since, provided its backup told only the truth and no overwritten file was named
   * `*.deleted`. `RollbackExactly` says that both are needed.
   */
  lemma RollbackUndoesApply(
      stale: Content, before: Content, files: seq<ManifestFile>, later: Content, after: Content)
    requires Truthful(Encode(stale, before, files), before) && NoMarkerNames(before, files)
    requires AgreeOutside(later, Applied(before, files), PathsIn(files))
    requires Decoded(later, Encode(stale, before, files), after)
    ensures after == before
  {
    AppliedElsewhere(before, files);
    forall p | p !in PathsIn(files) ensures SameAt(later, before, p) {
      assert SameAt(later, Applied(before, files), p) && SameAt(Applied(before, files), before, p);
    }
    DecodeEncoded(stale, before, later, files, after);
  }

  ghost predicate AllInPlace(live: Content, plan: ManifestV1) {
    forall f | f in plan.files :: f.relativePath in live && live[f.relativePath] == f.bytes
  }

  /**
   * An apply that was given an observed digest can only have passed its checks, whatever it failed to read,
   * where the plan's own manifest was on disk and every plan file already held its planned bytes.
   */
  lemma GuardedApplyFindsPlan(
      codec: Codec, plan: ManifestV1, manifest: Option<ManifestV1>, readable: Content, live: Content)
    requires SoundHash(codec, plan, manifest, readable)
    requires DigestPlan(codec, plan) in {NO_MANIFEST, ObservedDigest(codec, manifest, readable)}
    requires forall q | q in readable :: q in live && readable[q] == live[q]
    requires forall f | f in plan.files :: f.bytes != []
    ensures manifest.Some? && ManifestOf(manifest.value, plan) && AllInPlace(live, plan)
  {
    MatchingDigestMeansApplied(codec, plan, manifest, readable);
    MissingIsDrift(plan, readable);
  }

  /** And where all can be read, that is exactly where its checks pass. */
  lemma GuardedApplyExactly(codec: Codec, input: ApplyInput, manifest: Option<ManifestV1>, live: Content)
    requires input.observedDigest.Some? && input.previewDigest == DigestPlan(codec, input.plan)
    requires SoundHash(codec, input.plan, manifest, live) && OrdersPaths(codec, input.plan.files)
    requires forall f | f in input.plan.files :: f.bytes != []
    ensures Target.Guards(input, ObservedDigest(codec, manifest, live)) <==>
      && input.observedDigest.value == input.previewDigest
      && (input.expectedDigest.Some? ==> input.expectedDigest.value == input.previewDigest)
      && manifest.Some? && ManifestOf(manifest.value, input.plan) && AllInPlace(live, input.plan)
  {
    hide SoundHash, OrdersPaths, ObservedDigest, DigestPlan, ManifestOf;
    MatchingDigestExactly(codec, input.plan, manifest, live);
    MissingIsDrift(input.plan, live);
  }
}
