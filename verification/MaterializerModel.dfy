/** The materializer's backup encoding: kept files by name, absences by `.deleted` markers. */
module MaterializerModel {
  import opened Basics
  import opened Drift
  import opened Listings

  const DELETED: string := ".deleted"

  function Marker(path: string): string {
    path + DELETED
  }

  predicate IsMarker(name: string) {
    |name| >= |DELETED| && name[|name| - |DELETED|..] == DELETED
  }

  /** A marker's name without the suffix. */
  function Stem(name: string): string
    requires IsMarker(name)
  {
    name[..|name| - |DELETED|]
  }

  function PathsIn(files: seq<ManifestFile>): set<string> {
    set f | f in files :: f.relativePath
  }

  predicate DistinctPlan(files: seq<ManifestFile>) {
    forall i, j | 0 <= i < j < |files| :: files[i].relativePath != files[j].relativePath
  }

  // ---- encoding --------------------------------------------------------------------------------

  /** The name a file's backup goes under: its own, or a marker where there is nothing to back up. */
  function BackupName(live: Content, path: string): string {
    if path in live then path else Marker(path)
  }

  function BackupBytes(live: Content, path: string): Bytes {
    if path in live then live[path] else []
  }

  function EncodeOne(live: Content, dir: Content, path: string): Content {
    dir[BackupName(live, path) := BackupBytes(live, path)]
  }

  /** The backup of these files, written over what the backup directory held before. */
  function Encode(stale: Content, live: Content, files: seq<ManifestFile>): Content {
    if files == [] then stale
    else EncodeOne(live, Encode(stale, live, files[..|files| - 1]), files[|files| - 1].relativePath)
  }

  /** The files a plan puts in place. */
  function Planned(files: seq<ManifestFile>): Content {
    if files == [] then map[]
    else Planned(files[..|files| - 1])[files[|files| - 1].relativePath := files[|files| - 1].bytes]
  }

  function Applied(live: Content, files: seq<ManifestFile>): Content {
    live + Planned(files)
  }

  // ---- decoding --------------------------------------------------------------------------------

  /** What visiting one leaf of a backup directory does to the target. */
  function DecodeOne(live: Content, name: string, bytes: Bytes): Content {
    if IsMarker(name) then live - {Stem(name)} else live[name := bytes]
  }

  predicate Writes(dir: Content, path: string) {
    path in dir && !IsMarker(path)
  }

  predicate Removes(dir: Content, path: string) {
    Marker(path) in dir
  }

  /**
   * One path after a backup directory has been decoded in some order: a kept file is written back, a
   * marked path is removed, any other path is left alone. If a path is both kept and marked, the leaf
   * visited last decides.
   */
  ghost predicate DecodedAt(before: Content, dir: Content, after: Content, path: string) {
    if Writes(dir, path) then
      || (path in after && after[path] == dir[path])
      || (Removes(dir, path) && path !in after)
    else if Removes(dir, path) then path !in after
    else SameAt(after, before, path)
  }

  ghost predicate Decoded(before: Content, dir: Content, after: Content) {
    forall path :: DecodedAt(before, dir, after, path)
  }

  lemma MarkerStem(name: string)
    ensures IsMarker(Marker(name)) && Stem(Marker(name)) == name
    ensures IsMarker(name) ==> Marker(Stem(name)) == name
  {
  }

  /**
   * Markers are the names that end in `.deleted`; each is about the path before that, and any other name about
   * itself.
   */
  lemma MarkerExactly(name: string, path: string)
    ensures IsMarker(name) <==> exists p :: name == p + ".deleted"
    ensures BackupName(map[], path) == path + ".deleted" && Subject(path + ".deleted") == path
    ensures (forall p :: path != p + ".deleted") ==> Subject(path) == path
  {
    if p :| name == p + ".deleted" { MarkerStem(p); }
    MarkerStem(name);
    MarkerStem(path);
  }

  /** Visiting one more leaf keeps the meaning of what has been visited. */
  lemma DecodeStep(before: Content, dir: Content, after: Content, name: string, bytes: Bytes)
    requires Decoded(before, dir, after)
    ensures Decoded(before, dir[name := bytes], DecodeOne(after, name, bytes))
  {
    var dir', after' := dir[name := bytes], DecodeOne(after, name, bytes);
    forall path ensures DecodedAt(before, dir', after', path) {
      assert DecodedAt(before, dir, after, path);
      MarkerStem(path);
      MarkerStem(name);
    }
  }

  // ---- decoding what was encoded ---------------------------------------------------------------

  /** The files the plan is about to overwrite include none whose name looks like a marker. */
  ghost predicate NoMarkerNames(live: Content, files: seq<ManifestFile>) {
    forall f | f in files && f.relativePath in live :: !IsMarker(f.relativePath)
  }

  lemma LastFile(files: seq<ManifestFile>)
    requires files != []
    ensures PathsIn(files) == PathsIn(files[..|files| - 1]) + {files[|files| - 1].relativePath}
  {
    assert files == files[..|files| - 1] + [files[|files| - 1]];
  }

  /** What a backup directory says about the live files, a marker that there is none, is so. */
  ghost predicate Truthful(dir: Content, live: Content) {
    forall name | name in dir ::
      if IsMarker(name) then Stem(name) !in live else name in live && live[name] == dir[name]
  }

  /** The plan's files are in the backup, and it is as truthful as the directory it was written over. */
  lemma {:induction false} EncodeTells(stale: Content, live: Content, files: seq<ManifestFile>)
    ensures stale.Keys <= Encode(stale, live, files).Keys
    ensures forall p | p in PathsIn(files) :: BackupName(live, p) in Encode(stale, live, files)
    ensures Truthful(stale, live) && NoMarkerNames(live, files) ==> Truthful(Encode(stale, live, files), live)
  {
    if files != [] {
      var n := |files| - 1;
      LastFile(files);
      assert files == files[..n] + [files[n]];
      EncodeTells(stale, live, files[..n]);
      MarkerStem(files[n].relativePath);
    }
  }

  /** Decoding a truthful backup of the plan's files gives the live files of before. */
  lemma DecodeTruthful(dir: Content, before: Content, now: Content, files: seq<ManifestFile>, after: Content)
    requires Truthful(dir, before) && NoMarkerNames(before, files)
    requires forall p | p in PathsIn(files) :: BackupName(before, p) in dir
    requires AgreeOutside(now, before, PathsIn(files)) && Decoded(now, dir, after)
    ensures after == before
  {
    forall path: string ensures SameAt(after, before, path) {
      MarkerStem(path);
      assert DecodedAt(now, dir, after, path);
      if path !in PathsIn(files) { assert SameAt(now, before, path); }
    }
    SameEverywhere(after, before);
  }

  /** Decoding an encoded backup gives back the plan's files as they were, and touches nothing else. */
  lemma DecodeEncoded(stale: Content, before: Content, now: Content, files: seq<ManifestFile>, after: Content)
    requires Truthful(Encode(stale, before, files), before) && NoMarkerNames(before, files)
    requires AgreeOutside(now, before, PathsIn(files))
    requires Decoded(now, Encode(stale, before, files), after)
    ensures after == before
  {
    EncodeTells(stale, before, files);
    DecodeTruthful(Encode(stale, before, files), before, now, files, after);
  }

  /** The live files when the first j staged files have been renamed into place. */
  function Renamed(before: Content, files: seq<ManifestFile>, j: nat): Content
    requires j <= |files|
  {
    Over(before, Planned(files), PathsIn(files[..j]))
  }

  /** One content with another on top of it at some paths. */
  function Over(before: Content, planned: Content, paths: set<string>): Content {
    before + map p | p in paths && p in planned :: planned[p]
  }

  /** How many of the files, from the i-th on, find room in the backup directory beside those before them. */
  function RoomFrom(stale: Content, live: Content, files: seq<ManifestFile>, i: nat): (n: nat)
    requires i <= |files|
    ensures i <= n <= |files|
    decreases |files| - i
  {
    if i == |files| || !Fits(Encode(stale, live, files[..i]), BackupName(live, files[i].relativePath)) then i
    else RoomFrom(stale, live, files, i + 1)
  }

  function Room(stale: Content, live: Content, files: seq<ManifestFile>): (n: nat)
    ensures n <= |files|
  {
    RoomFrom(stale, live, files, 0)
  }

  lemma RoomStep(stale: Content, live: Content, files: seq<ManifestFile>, i: nat)
    requires i < |files|
    ensures RoomFrom(stale, live, files, i)
         == if Fits(Encode(stale, live, files[..i]), BackupName(live, files[i].relativePath))
            then RoomFrom(stale, live, files, i + 1) else i
  {
    hide Fits, Encode;
  }

  /** At most `room` files can be backed up and `far` renamed, none before all are backed up. */
  predicate Reach(files: seq<ManifestFile>, room: nat, far: nat) {
    room <= |files| && far <= |files| && (far > 0 ==> room == |files|)
  }

  /**
   * The recovery when k files have been backed up and j renamed, which happens only within reach and only once
   * all are backed up, gives back the live files.
   */
  ghost predicate Restores(
      stale: Content, before: Content, files: seq<ManifestFile>, room: nat, far: nat, k: int, j: int, after: Content)
    requires Reach(files, room, far)
  {
    (&& 0 <= k <= room && 0 <= j <= far && (k < |files| ==> j == 0)
     && Decoded(Renamed(before, files, j), Encode(stale, before, files[..k]), after))
    ==> after == before
  }

  /**
   * An existing plan file with a marker's name does no harm: there is no file under its stem, and if it gets to
   * be renamed it is replaced by itself.
   */
  ghost predicate HarmlessAt(before: Content, files: seq<ManifestFile>, far: nat, i: nat)
    requires i < |files|
  {
    var p := files[i].relativePath;
    p in before && IsMarker(p) ==>
      && Stem(p) !in before
      && (i < far ==> p in Planned(files) && Planned(files)[p] == before[p])
  }

  /** Nor does any other that gets to be backed up. */
  ghost predicate Harmless(before: Content, files: seq<ManifestFile>, room: nat, far: nat)
    requires Reach(files, room, far)
  {
    forall i | 0 <= i < room :: HarmlessAt(before, files, far, i)
  }

  /** Without such a file there is none to do harm. */
  lemma NoMarkerNamesHarmless(before: Content, files: seq<ManifestFile>, room: nat, far: nat)
    requires NoMarkerNames(before, files) && Reach(files, room, far)
    ensures Harmless(before, files, room, far)
  {
    forall i | 0 <= i < room ensures HarmlessAt(before, files, far, i) { assert files[i] in files; }
  }

  /** A backup of the first k files is as truthful as the directory it was written over. */
  lemma {:induction false} EncodeTruthful(
      stale: Content, before: Content, files: seq<ManifestFile>, room: nat, far: nat, k: nat)
    requires Reach(files, room, far) && k <= room
    requires Truthful(stale, before) && Harmless(before, files, room, far)
    ensures Truthful(Encode(stale, before, files[..k]), before)
  {
    if k == 0 {
      assert files[..0] == [];
    } else {
      EncodeTruthful(stale, before, files, room, far, k - 1);
      EncodeStep(stale, before, files, k - 1);
      MarkerStem(files[k - 1].relativePath);
      assert HarmlessAt(before, files, far, k - 1);
      hide Encode, Harmless, Planned;
    }
  }

  lemma IndexOfPath(files: seq<ManifestFile>, j: nat, p: string) returns (i: nat)
    requires j <= |files| && p in PathsIn(files[..j])
    ensures i < j && files[i].relativePath == p && files[i] in files
  {
    var f :| f in files[..j] && f.relativePath == p;
    i :| 0 <= i < j && files[..j][i] == f;
  }

  /** Whatever has been renamed, a path that the backup does not decode holds what it held. */
  lemma UndecodedPath(
      stale: Content, before: Content, files: seq<ManifestFile>, room: nat, far: nat, j: nat, p: string)
    requires Reach(files, room, far) && Harmless(before, files, room, far) && j <= far
    requires !Writes(Encode(stale, before, files), p) && !Removes(Encode(stale, before, files), p)
    ensures SameAt(Renamed(before, files, j), before, p)
  {
    hide Encode, Planned, IsMarker;
    if p in PathsIn(files[..j]) {
      var i := IndexOfPath(files, j, p);
      EncodeTells(stale, before, files);
      assert p in PathsIn(files);
      assert HarmlessAt(before, files, far, i);
    }
  }

  /** What is recovered, at every point of an apply, is what was there. */
  lemma RecoverEncoded(
      stale: Content, before: Content, files: seq<ManifestFile>, room: nat, far: nat, k: nat, j: nat, after: Content)
    requires Reach(files, room, far) && Truthful(stale, before) && Harmless(before, files, room, far)
    ensures Restores(stale, before, files, room, far, k, j, after)
  {
    hide Harmless;
    if k <= room && j <= far && (k < |files| ==> j == 0)
       && Decoded(Renamed(before, files, j), Encode(stale, before, files[..k]), after) {
      EncodeTruthful(stale, before, files, room, far, k);
      var now, dir := Renamed(before, files, j), Encode(stale, before, files[..k]);
      forall p: string ensures SameAt(after, before, p) {
        assert DecodedAt(now, dir, after, p);
        MarkerStem(p);
        if !Writes(dir, p) && !Removes(dir, p) {
          if k < |files| {
            NothingRenamed(before, files);
          } else {
            assert files[..k] == files;
            UndecodedPath(stale, before, files, room, far, j, p);
          }
        }
      }
      SameEverywhere(after, before);
    }
  }

  lemma NothingRenamed(before: Content, files: seq<ManifestFile>)
    ensures Renamed(before, files, 0) == before
  {
    assert files[..0] == [];
  }

  /**
   * Exactly when a failed apply can be undone from its backup at every point within reach: the backup directory
   * told only the truth before, which an empty one does, and every existing plan file named `*.deleted` is
   * harmless.
   */
  lemma DecodableExactly(stale: Content, before: Content, files: seq<ManifestFile>, room: nat, far: nat)
    requires Reach(files, room, far)
    ensures Truthful(stale, before) && Harmless(before, files, room, far) <==>
      forall k, j, after :: Restores(stale, before, files, room, far, k, j, after)
    ensures Truthful(map[], before)
  {
    hide Decoded, Encode, Renamed, Restores, HarmlessAt;
    if Truthful(stale, before) && Harmless(before, files, room, far) {
      forall k: int, j: int, after ensures Restores(stale, before, files, room, far, k, j, after) {
        if k >= 0 && j >= 0 {
          RecoverEncoded(stale, before, files, room, far, k, j, after);
        } else {
          OutOfRange(stale, before, files, room, far, k, j, after);
        }
      }
    } else if !Truthful(stale, before) {
      var after := StaleNameLost(stale, before, files, room, far);
    } else {
      var i :| 0 <= i < room && !HarmlessAt(before, files, far, i);
      var k, j, after := HarmDone(stale, before, files, room, far, i);
    }
  }

  lemma OutOfRange(
      stale: Content, before: Content, files: seq<ManifestFile>, room: nat, far: nat, k: int, j: int, after: Content)
    requires Reach(files, room, far) && (k < 0 || j < 0)
    ensures Restores(stale, before, files, room, far, k, j, after)
  {
  }

  lemma StaleNameLost(stale: Content, before: Content, files: seq<ManifestFile>, room: nat, far: nat)
    returns (after: Content)
    requires Reach(files, room, far) && !Truthful(stale, before)
    ensures !Restores(stale, before, files, room, far, 0, 0, after)
  {
    hide Decoded, Encode, Truthful;
    after := StaleNameRestored(stale, before);
    NothingRenamed(before, files);
    NothingYet(stale, before);
    assert files[..0] == [];
  }

  /** An overwritten file that is read as a marker: its stem is removed, or it is not written back itself. */
  lemma HarmDone(stale: Content, before: Content, files: seq<ManifestFile>, room: nat, far: nat, i: nat)
    returns (k: nat, j: nat, after: Content)
    requires Reach(files, room, far) && i < room && !HarmlessAt(before, files, far, i)
    ensures !Restores(stale, before, files, room, far, k, j, after)
  {
    hide Encode, Planned, Decoded, Writes, Removes, Stem, IsMarker, Renamed;
    if Stem(files[i].relativePath) in before { k, j := i + 1, 0; } else { k, j := |files|, i + 1; }
    var now, dir := Renamed(before, files, j), Encode(stale, before, files[..k]);
    after := MarkedLast(now, dir);
    BothDecode(now, dir);
    if Stem(files[i].relativePath) in before {
      assert files[..k][i] == files[i];
      StemRemoved(stale, before, files[..k], i, now);
    } else {
      assert files[..k] == files;
      NotWrittenBack(stale, before, files, i);
    }
  }

  lemma StemRemoved(stale: Content, before: Content, files: seq<ManifestFile>, i: nat, now: Content)
    requires i < |files| && files[i].relativePath in before && IsMarker(files[i].relativePath)
    ensures Stem(files[i].relativePath) !in MarkedLast(now, Encode(stale, before, files))
  {
    hide Encode;
    var p := files[i].relativePath;
    MarkerStem(p);
    EncodeTells(stale, before, files);
    assert files[i] in files && p in PathsIn(files);
    assert BackupName(before, p) == p;
  }

  lemma NotWrittenBack(stale: Content, before: Content, files: seq<ManifestFile>, i: nat)
    requires i < |files| && files[i].relativePath in before && IsMarker(files[i].relativePath)
    requires
      var p := files[i].relativePath;
      p !in Planned(files) || Planned(files)[p] != before[p]
    ensures MarkedLast(Renamed(before, files, i + 1), Encode(stale, before, files)) != before
  {
    hide Encode, Planned;
    var p, after := files[i].relativePath, MarkedLast(Renamed(before, files, i + 1), Encode(stale, before, files));
    PlannedPaths(files);
    assert files[..i + 1][i] == files[i];
    assert files[i] in files && files[i] in files[..i + 1];
    assert p in after ==> after[p] == Renamed(before, files, i + 1)[p] == Planned(files)[p];
  }

  // ---- decoding in a rollback ------------------------------------------------------------------

  /** Decoding the backup of a whole plan gives the live files of before. */
  ghost predicate RollsBack(stale: Content, before: Content, files: seq<ManifestFile>, later: Content, after: Content) {
    AgreeOutside(later, before, PathsIn(files)) && Decoded(later, Encode(stale, before, files), after)
    ==> after == before
  }

  /**
   * Exactly when a rollback gives the live files back, whatever was since written to the plan's paths: the
   * backup tells only the truth, which names from an earlier run may not but for those written over, and no
   * file that the plan overwrote is named `*.deleted`.
   */
  lemma RollbackExactly(stale: Content, before: Content, files: seq<ManifestFile>)
    ensures Truthful(Encode(stale, before, files), before) && NoMarkerNames(before, files) <==>
      forall later, after :: RollsBack(stale, before, files, later, after)
    ensures Truthful(stale, before) && NoMarkerNames(before, files) ==> Truthful(Encode(stale, before, files), before)
  {
    hide Decoded, Encode, Truthful;
    EncodeTells(stale, before, files);
    var dir := Encode(stale, before, files);
    if Truthful(dir, before) && NoMarkerNames(before, files) {
      forall later, after ensures RollsBack(stale, before, files, later, after) {
        if AgreeOutside(later, before, PathsIn(files)) && Decoded(later, dir, after) {
          DecodeEncoded(stale, before, later, files, after);
        }
      }
    } else if !Truthful(dir, before) {
      var after := StaleNameRestored(dir, before);
      AgreeSelf(before, PathsIn(files));
      assert !RollsBack(stale, before, files, before, after);
    } else {
      var f :| f in files && f.relativePath in before && IsMarker(f.relativePath);
      var later, after := MarkerNameLost(stale, before, files, f);
      assert !RollsBack(stale, before, files, later, after);
    }
  }

  /** A decoding in which, of a path both kept and marked, the file is visited last. */
  function KeptLast(now: Content, dir: Content): Content {
    map q | q in now.Keys + dir.Keys && (Writes(dir, q) || (q in now && !Removes(dir, q))) ::
      if Writes(dir, q) then dir[q] else now[q]
  }

  /** And one in which the marker is. */
  function MarkedLast(now: Content, dir: Content): Content {
    map q | q in now.Keys + dir.Keys && !Removes(dir, q) && (q in now || Writes(dir, q)) ::
      if Writes(dir, q) then dir[q] else now[q]
  }

  lemma BothDecode(now: Content, dir: Content)
    ensures Decoded(now, dir, KeptLast(now, dir)) && Decoded(now, dir, MarkedLast(now, dir))
  {
    forall q ensures DecodedAt(now, dir, KeptLast(now, dir), q) { }
    forall q ensures DecodedAt(now, dir, MarkedLast(now, dir), q) { }
  }

  /** The first failing family: an untruthful name left in the directory is decoded into the live files. */
  lemma StaleNameRestored(stale: Content, before: Content) returns (after: Content)
    requires !Truthful(stale, before)
    ensures Decoded(before, stale, after) && after != before
  {
    hide Decoded;
    BothDecode(before, stale);
    var name :| name in stale
      && !(if IsMarker(name) then Stem(name) !in before else name in before && before[name] == stale[name]);
    MarkerStem(name);
    if IsMarker(name) {
      after := MarkedLast(before, stale);
      assert Removes(stale, Stem(name)) && Stem(name) !in after;
    } else {
      after := KeptLast(before, stale);
      assert Writes(stale, name) && name in after && after[name] == stale[name];
    }
  }

  /** The second: an overwritten file named `*.deleted` is read as a marker and is never written back. */
  lemma MarkerNameLost(stale: Content, before: Content, files: seq<ManifestFile>, f: ManifestFile)
    returns (now: Content, after: Content)
    requires f in files && f.relativePath in before && IsMarker(f.relativePath)
    ensures AgreeOutside(now, before, PathsIn(files)) && Decoded(now, Encode(stale, before, files), after)
    ensures after != before
  {
    var p, dir := f.relativePath, Encode(stale, before, files);
    now := before[p := before[p] + [0]];
    after := MarkedLast(now, dir);
    BothDecode(now, dir);
    hide Decoded, Encode;
    assert p in PathsIn(files);
    forall q | q !in PathsIn(files) ensures SameAt(now, before, q) { }
    assert !Writes(dir, p);
    assert p in after ==> after[p] == now[p] != before[p];
  }

  /** With both `x` and `x.deleted` in a directory, the one visited last decides what `x` becomes. */
  lemma LastVisitDecides(live: Content, x: string, a: Bytes, b: Bytes)
    requires !IsMarker(x)
    ensures x !in DecodeOne(DecodeOne(live, x, a), Marker(x), b)
    ensures x in DecodeOne(DecodeOne(live, Marker(x), b), x, a)
  {
    MarkerStem(x);
  }

  /** The order of visiting is immaterial exactly when no path is both kept and marked. */
  lemma VisitingOrderMatters(now: Content, dir: Content)
    ensures (forall a, b | Decoded(now, dir, a) && Decoded(now, dir, b) :: a == b) <==>
      forall p :: !(Writes(dir, p) && Removes(dir, p))
  {
    BothDecode(now, dir);
    if p :| Writes(dir, p) && Removes(dir, p) {
      assert p in KeptLast(now, dir) && p !in MarkedLast(now, dir);
    } else {
      forall a, b | Decoded(now, dir, a) && Decoded(now, dir, b) ensures a == b {
        forall p: string ensures SameAt(a, b, p) {
          assert DecodedAt(now, dir, a, p) && DecodedAt(now, dir, b, p);
        }
        SameEverywhere(a, b);
      }
    }
  }

  // ---- one more plan file ----------------------------------------------------------------------

  lemma EncodeStep(stale: Content, live: Content, files: seq<ManifestFile>, i: nat)
    requires i < |files|
    ensures Encode(stale, live, files[..i + 1])
         == EncodeOne(live, Encode(stale, live, files[..i]), files[i].relativePath)
  {
    assert files[..i + 1][..i] == files[..i];
  }

  lemma AppliedStep(live: Content, files: seq<ManifestFile>, i: nat)
    requires i < |files|
    ensures Applied(live, files[..i + 1]) == Applied(live, files[..i])[files[i].relativePath := files[i].bytes]
    ensures PathsIn(files[..i + 1]) == PathsIn(files[..i]) + {files[i].relativePath}
    ensures files[i].relativePath in PathsIn(files)
  {
    assert files[..i + 1][..i] == files[..i];
    LastFile(files[..i + 1]);
  }

  lemma {:induction false} PlannedPaths(files: seq<ManifestFile>)
    ensures Planned(files).Keys == PathsIn(files)
  {
    if files != [] {
      PlannedPaths(files[..|files| - 1]);
      LastFile(files);
    }
  }

  lemma {:induction false} PlannedAt(files: seq<ManifestFile>, i: nat)
    requires DistinctPlan(files) && i < |files|
    ensures files[i].relativePath in Planned(files) && Planned(files)[files[i].relativePath] == files[i].bytes
  {
    if i < |files| - 1 {
      PlannedAt(files[..|files| - 1], i);
    }
  }

  lemma AppliedElsewhere(live: Content, files: seq<ManifestFile>)
    ensures AgreeOutside(Applied(live, files), live, PathsIn(files))
  {
    PlannedPaths(files);
  }

  lemma DistinctStep(files: seq<ManifestFile>, i: nat)
    requires i < |files| && DistinctPlan(files[..i])
    ensures DistinctPlan(files[..i + 1]) <==> files[i].relativePath !in PathsIn(files[..i])
    ensures files[i].relativePath in PathsIn(files[..i]) ==> !DistinctPlan(files)
  {
    assert files[..i + 1] == files[..i] + [files[i]];
    forall j | 0 <= j < i ensures files[j].relativePath in PathsIn(files[..i]) {
      assert files[j] in files[..i];
    }
    if files[i].relativePath in PathsIn(files[..i]) {
      var f :| f in files[..i] && f.relativePath == files[i].relativePath;
      var j :| 0 <= j < i && files[..i][j] == f;
      assert files[..i + 1][j].relativePath == files[..i + 1][i].relativePath;
    }
  }

  /** The path that one name in a backup directory is about. */
  function Subject(name: string): string {
    if IsMarker(name) then Stem(name) else name
  }

  function Subjects(dir: Content): set<string> {
    set name | name in dir :: Subject(name)
  }

  lemma NothingYet(stale: Content, live: Content)
    ensures Encode(stale, live, []) == stale && Applied(live, []) == live
    ensures PathsIn([]) == {} && DistinctPlan([])
  {
  }

  lemma {:induction false} EncodeMonotone(stale: Content, live: Content, files: seq<ManifestFile>, i: nat)
    requires i <= |files|
    ensures Encode(stale, live, files[..i]).Keys <= Encode(stale, live, files).Keys
    decreases |files| - i
  {
    if i == |files| {
      assert files[..i] == files;
    } else {
      EncodeStep(stale, live, files, i);
      EncodeMonotone(stale, live, files, i + 1);
    }
  }

  /** If the whole backup can be held by one directory, each next file fits beside those already there. */
  lemma EncodeFits(stale: Content, live: Content, files: seq<ManifestFile>, i: nat)
    requires i < |files| && Listable(Encode(stale, live, files))
    ensures Fits(Encode(stale, live, files[..i]), BackupName(live, files[i].relativePath))
  {
    var name := BackupName(live, files[i].relativePath);
    EncodeStep(stale, live, files, i);
    EncodeMonotone(stale, live, files, i);
    EncodeMonotone(stale, live, files, i + 1);
    assert name in Encode(stale, live, files[..i + 1]);
    assert Fits(Encode(stale, live, files), name);
  }

  /** The i-th rename of a plan whose earlier paths differ: its staged file is there exactly if its path is new. */
  lemma {:induction false} StagedStep(staged: Content, files: seq<ManifestFile>, i: nat, left: Content)
    requires i < |files| && DistinctPlan(files[..i])
    requires left == Applied(staged, files) - PathsIn(files[..i])
    ensures
      var p := files[i].relativePath;
      && (p in left <==> DistinctPlan(files[..i + 1]))
      && (p !in left ==> !DistinctPlan(files))
      && left - {p} == Applied(staged, files) - PathsIn(files[..i + 1])
      && p in Planned(files) && (p in left ==> left[p] == Planned(files)[p])
      && (DistinctPlan(files) ==> Planned(files)[p] == files[i].bytes)
  {
    hide DistinctPlan, PathsIn, Planned;
    AppliedStep(staged, files, i);
    DistinctStep(files, i);
    PlannedPaths(files);
    if DistinctPlan(files) { PlannedAt(files, i); }
  }

  lemma {:induction false} RenamedStep(before: Content, files: seq<ManifestFile>, i: nat)
    requires i < |files|
    ensures
      var p := files[i].relativePath;
      p in Planned(files) && Renamed(before, files, i + 1) == Renamed(before, files, i)[p := Planned(files)[p]]
  {
    hide PathsIn, Planned;
    AppliedStep(before, files, i);
    PlannedPaths(files);
    OverStep(before, Planned(files), PathsIn(files[..i]), files[i].relativePath);
  }

  lemma OverStep(before: Content, planned: Content, paths: set<string>, p: string)
    requires p in planned
    ensures Over(before, planned, paths + {p}) == Over(before, planned, paths)[p := planned[p]]
  {
  }

  lemma AllRenamed(before: Content, files: seq<ManifestFile>)
    ensures Renamed(before, files, |files|) == Applied(before, files)
  {
    hide Planned;
    assert files[..|files|] == files;
    PlannedPaths(files);
  }
}
