/** What a rollback reports: the files it restored and the files it removed. */
module RollbackReport {
  import opened Basics
  import opened Sorting
  import opened Framing
  import opened RuntimeModel

  /** The paths of the files recorded as existing, in the order of the record. */
  function ExistedPaths(entries: seq<BackupEntry>): seq<string> {
    if entries == [] then []
    else
      var n := |entries| - 1;
      ExistedPaths(entries[..n]) + (if entries[n].existed then [entries[n].path] else [])
  }

  /** The paths recorded as absent that are there when their turn comes, in the order of the record. */
  function GonePaths(live: Files, entries: seq<BackupEntry>, backup: Files): seq<string> {
    if entries == [] then []
    else
      var n := |entries| - 1;
      GonePaths(live, entries[..n], backup)
      + (if !entries[n].existed && entries[n].path in Restore(live, entries[..n], backup)
          then [entries[n].path] else [])
  }

  /** One list with what is new in another after it, each once. */
  function Extended(out: seq<string>, names: seq<string>): seq<string> {
    if names == [] then out
    else
      var n := |names| - 1;
      var more := Extended(out, names[..n]);
      if names[n] in more then more else more + [names[n]]
  }

  lemma ReportNothing(live: Files, backup: Files, out: seq<string>)
    ensures ExistedPaths([]) == [] && GonePaths(live, [], backup) == [] && Extended(out, []) == out
  {
  }

  lemma ReportNext(live: Files, entries: seq<BackupEntry>, backup: Files, i: nat)
    requires i < |entries|
    ensures ExistedPaths(entries[..i + 1])
         == ExistedPaths(entries[..i]) + (if entries[i].existed then [entries[i].path] else [])
    ensures GonePaths(live, entries[..i + 1], backup)
         == GonePaths(live, entries[..i], backup)
            + (if !entries[i].existed && entries[i].path in Restore(live, entries[..i], backup) then [entries[i].path]
               else [])
  {
    hide Restore;
    assert entries[..i + 1][..i] == entries[..i];
  }

  lemma {:induction false} ExtendedNext(out: seq<string>, names: seq<string>, i: nat)
    requires i < |names|
    ensures Extended(out, names[..i + 1])
         == (var more := Extended(out, names[..i]); if names[i] in more then more else more + [names[i]])
  {
    assert names[..i + 1][..i] == names[..i];
  }

  // ---- what these lists say --------------------------------------------------------------------

  ghost predicate DistinctEntries(entries: seq<BackupEntry>) {
    forall i, j | 0 <= i < j < |entries| :: entries[i].path != entries[j].path
  }

  lemma {:induction false} ExistedExactly(entries: seq<BackupEntry>, p: string)
    ensures p in ExistedPaths(entries) <==> exists e :: e in entries && e.path == p && e.existed
  {
    if entries != [] {
      var n := |entries| - 1;
      assert entries == entries[..n] + [entries[n]];
      ExistedExactly(entries[..n], p);
    }
  }

  lemma {:induction false} ExistedOnce(entries: seq<BackupEntry>)
    requires DistinctEntries(entries)
    ensures NoDuplicates(ExistedPaths(entries))
  {
    if entries != [] {
      var n := |entries| - 1;
      ExistedOnce(entries[..n]);
      ExistedExactly(entries[..n], entries[n].path);
      LastApart(entries);
    }
  }

  lemma LastApart(entries: seq<BackupEntry>)
    requires DistinctEntries(entries) && entries != []
    ensures forall e | e in entries[..|entries| - 1] :: e.path != entries[|entries| - 1].path
    ensures DistinctEntries(entries[..|entries| - 1])
  {
  }

  lemma {:induction false} RestoreElsewhere(live: Files, entries: seq<BackupEntry>, backup: Files, p: string)
    requires forall e | e in entries :: e.path != p
    ensures SameAt(Restore(live, entries, backup), live, p)
  {
    if entries != [] {
      var n := |entries| - 1;
      assert entries[n] in entries;
      RestoreElsewhere(live, entries[..n], backup, p);
    }
  }

  /** With no path recorded twice, those removed are the recorded absences that are there, each once. */
  lemma {:induction false} GoneExactly(live: Files, entries: seq<BackupEntry>, backup: Files)
    requires DistinctEntries(entries)
    ensures forall p :: p in GonePaths(live, entries, backup) <==>
              p in live && exists e :: e in entries && e.path == p && !e.existed
    ensures NoDuplicates(GonePaths(live, entries, backup))
  {
    hide Restore;
    if entries != [] {
      var n := |entries| - 1;
      assert entries == entries[..n] + [entries[n]];
      LastApart(entries);
      GoneExactly(live, entries[..n], backup);
      RestoreElsewhere(live, entries[..n], backup, entries[n].path);
    }
  }

  /** They come in the order of the record. */
  lemma {:induction false} GoneInOrder(live: Files, entries: seq<BackupEntry>, backup: Files, i: nat, j: nat)
    requires DistinctEntries(entries) && i < j < |entries|
    requires entries[i].path in GonePaths(live, entries, backup) && entries[j].path in GonePaths(live, entries, backup)
    ensures exists a, b :: 0 <= a < b < |GonePaths(live, entries, backup)|
              && GonePaths(live, entries, backup)[a] == entries[i].path
              && GonePaths(live, entries, backup)[b] == entries[j].path
  {
    hide Restore;
    var n := |entries| - 1;
    var gone, before := GonePaths(live, entries, backup), GonePaths(live, entries[..n], backup);
    LastApart(entries);
    assert gone[..|before|] == before;
    assert entries[..n][i] == entries[i];
    assert entries[i] in entries[..n] && entries[i].path != entries[n].path;
    if j < n {
      assert entries[..n][j] == entries[j];
      assert entries[j] in entries[..n] && entries[j].path != entries[n].path;
      GoneInOrder(live, entries[..n], backup, i, j);
      var a, b :| 0 <= a < b < |before| && before[a] == entries[i].path && before[b] == entries[j].path;
      assert gone[a] == before[a] && gone[b] == before[b];
    } else {
      var a :| 0 <= a < |before| && before[a] == entries[i].path;
      GoneExactly(live, entries[..n], backup);
      assert entries[n].path !in before;
      assert gone == before + [entries[n].path];
      assert gone[a] == before[a] && gone[|before|] == entries[n].path;
    }
  }

  /** The extended list begins with the one it extends, holds both, and repeats nothing that was not repeated. */
  lemma {:induction false} ExtendedExactly(out: seq<string>, names: seq<string>)
    ensures out <= Extended(out, names)
    ensures forall p :: p in Extended(out, names) <==> p in out || p in names
    ensures NoDuplicates(out) ==> NoDuplicates(Extended(out, names))
  {
    if names != [] {
      var n := |names| - 1;
      assert names == names[..n] + [names[n]];
      ExtendedExactly(out, names[..n]);
    }
  }
  /** Item by item: what was recorded as existing, in the order of the record. */
  lemma {:induction false} ExistedInOrder(entries: seq<BackupEntry>)
    ensures ExistedPaths(entries) == Flat(Map((e: BackupEntry) => if e.existed then [e.path] else [], entries))
  {
    hide Flat;
    var one := (e: BackupEntry) => if e.existed then [e.path] else [];
    if entries == [] {
      NothingFlat<string>();
    } else {
      var n := |entries| - 1;
      ExistedInOrder(entries[..n]);
      LastPart(Map(one, entries));
      assert Map(one, entries)[..n] == Map(one, entries[..n]);
    }
  }

  /** Item by item: what the extended list adds, in the order of the names. */
  lemma {:induction false} ExtendedInOrder(out: seq<string>, names: seq<string>)
    requires NoDuplicates(names)
    ensures Extended(out, names) == out + Flat(Map((p: string) => if p in out then [] else [p], names))
  {
    hide Flat;
    var one := (p: string) => if p in out then [] else [p];
    if names == [] {
      NothingFlat<string>();
    } else {
      var n := |names| - 1;
      ExtendedInOrder(out, names[..n]);
      ExtendedExactly(out, names[..n]);
      LastPart(Map(one, names));
      assert Map(one, names)[..n] == Map(one, names[..n]);
      assert names[n] !in names[..n];
    }
  }
}
