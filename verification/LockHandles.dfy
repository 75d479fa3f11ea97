/** The materializer's lock files and the handles that hold them. */
module LockHandles {
  import opened Basics

  datatype LockKey = LockKey(lockDir: string, harness: string, profileId: string)

  predicate IsIdChar(c: char) {
    'A' <= c <= 'Z' || 'a' <= c <= 'z' || '0' <= c <= '9' || c in ['.', '_', '-']
  }

  predicate ValidProfile(s: string) {
    |s| > 4 && s[..4] == "prf_" && forall i | 4 <= i < |s| :: IsIdChar(s[i])
  }

  // ---- what a run of calls means ---------------------------------------------------------------

  datatype HandleState = HandleState(key: LockKey, released: bool)

  /** The lock files on disk and every handle ever returned, oldest first. */
  datatype LockState = LockState(files: set<LockKey>, handles: seq<HandleState>)

  /** One call, and which of its file-system calls fail. */
  datatype Call =
    | Acquire(key: LockKey, openFails: bool, writeFails: bool)
    | Release(handle: nat, unlinkFails: bool)

  function Step(s: LockState, c: Call): LockState {
    match c
    case Acquire(key, openFails, writeFails) =>
      if !ValidProfile(key.profileId) || openFails || key in s.files then s
      else if writeFails then s.(files := s.files + {key})
      else LockState(s.files + {key}, s.handles + [HandleState(key, false)])
    case Release(i, unlinkFails) =>
      if i >= |s.handles| || s.handles[i].released then s
      else LockState(if unlinkFails then s.files else s.files - {s.handles[i].key},
                     s.handles[i := s.handles[i].(released := true)])
  }

  function Steps(s: LockState, calls: seq<Call>): LockState {
    if calls == [] then s else Step(Steps(s, calls[..|calls| - 1]), calls[|calls| - 1])
  }

  /** The handle is in use. */
  predicate Held(s: LockState, i: int) {
    0 <= i < |s.handles| && !s.handles[i].released
  }

  /** Handles in use have different keys, and each has its lock file. */
  ghost predicate Exclusive(s: LockState) {
    && (forall i, j | Held(s, i) && Held(s, j) && i != j :: s.handles[i].key != s.handles[j].key)
    && (forall i | Held(s, i) :: s.handles[i].key in s.files)
  }

  lemma StepKeepsExclusive(s: LockState, c: Call)
    requires Exclusive(s)
    ensures Exclusive(Step(s, c))
  {
    var s' := Step(s, c);
    forall i | Held(s', i)
      ensures Held(s, i) || (c.Acquire? && i == |s.handles| && s'.handles[i].key == c.key && c.key !in s.files)
    { }
    forall i | Held(s', i) && Held(s, i) ensures s'.handles[i] == s.handles[i] { }
    forall i | Held(s', i) ensures s'.handles[i].key in s'.files {
      if c.Release? && Held(s, c.handle) && i != c.handle {
        assert s.handles[i].key != s.handles[c.handle].key;
      }
    }
  }

  /** Over every run of acquires and releases, with failures anywhere, one key has at most one handle in use. */
  lemma {:induction false} AtMostOneHolder(files: set<LockKey>, calls: seq<Call>)
    ensures Exclusive(Steps(LockState(files, []), calls))
  {
    if calls != [] {
      AtMostOneHolder(files, calls[..|calls| - 1]);
      StepKeepsExclusive(Steps(LockState(files, []), calls[..|calls| - 1]), calls[|calls| - 1]);
    }
  }

  lemma {:induction false} ReleasedStaysReleased(s: LockState, calls: seq<Call>, i: nat)
    requires i < |s.handles| && s.handles[i].released
    ensures i < |Steps(s, calls).handles| && Steps(s, calls).handles[i] == s.handles[i]
  {
    if calls != [] {
      ReleasedStaysReleased(s, calls[..|calls| - 1], i);
    }
  }

  /**
   * A handle released once is spent: whatever has happened since, releasing it again changes nothing, so
   * it cannot remove a lock file that somebody else holds by then.
   */
  lemma {:induction false} SecondReleaseIdle(s: LockState, i: nat, fails: bool, since: seq<Call>, failsAgain: bool)
    requires Exclusive(s) && Held(s, i)
    ensures
      var later := Steps(Step(s, Release(i, fails)), since);
      Step(later, Release(i, failsAgain)) == later
  {
    ReleasedStaysReleased(Step(s, Release(i, fails)), since, i);
  }

  /** The first release removes its own lock file and leaves every other held lock in place. */
  lemma {:induction false} ReleaseIsOwn(s: LockState, i: nat, fails: bool, j: nat)
    requires Exclusive(s) && Held(s, i) && Held(s, j) && i != j
    ensures
      var s' := Step(s, Release(i, fails));
      && Held(s', j) && s'.handles[j].key in s'.files
      && (!fails ==> s.handles[i].key !in s'.files)
  {
    assert s.handles[i].key != s.handles[j].key;
  }

  // ---- lock files without a holder ---------------------------------------------------------------

  /** The lock file is there and no handle in use is its own. */
  ghost predicate Orphan(s: LockState, key: LockKey) {
    key in s.files && forall i | Held(s, i) :: s.handles[i].key != key
  }

  /** This call leaves the key's lock file behind: it creates the file and cannot fill it in, or cannot remove it. */
  predicate LeavesBehind(s: LockState, c: Call, key: LockKey) {
    match c
    case Acquire(k, openFails, writeFails) =>
      k == key && ValidProfile(key.profileId) && !openFails && key !in s.files && writeFails
    case Release(i, unlinkFails) =>
      Held(s, i) && s.handles[i].key == key && unlinkFails
  }

  predicate LeftBehind(s: LockState, calls: seq<Call>, key: LockKey) {
    if calls == [] then false
    else
      var n := |calls| - 1;
      LeftBehind(s, calls[..n], key) || LeavesBehind(Steps(s, calls[..n]), calls[n], key)
  }

  lemma StepOrphan(s: LockState, c: Call, key: LockKey)
    requires Exclusive(s)
    ensures Orphan(Step(s, c), key) <==> Orphan(s, key) || LeavesBehind(s, c, key)
  {
    hide ValidProfile;
    var s' := Step(s, c);
    match c {
      case Acquire(k, _, _) =>
        forall i | Held(s, i) ensures Held(s', i) && s'.handles[i] == s.handles[i] { }
        if |s'.handles| > |s.handles| { assert Held(s', |s.handles|); }
        forall i | Held(s', i) ensures Held(s, i) || (i == |s.handles| && s'.handles[i].key == k && k !in s.files) { }
      case Release(n, _) =>
        forall i | Held(s, i) && i != n ensures Held(s', i) && s'.handles[i] == s.handles[i] { }
        forall i | Held(s', i) ensures Held(s, i) && s'.handles[i] == s.handles[i] { }
    }
  }

  /** A lock file has no holder exactly if it was there at first, or a failed write or unlink left it behind. */
  lemma {:induction false} OrphanExactly(files: set<LockKey>, calls: seq<Call>, key: LockKey)
    ensures
      var s := LockState(files, []);
      Orphan(Steps(s, calls), key) <==> key in files || LeftBehind(s, calls, key)
  {
    hide Step, Exclusive, LeavesBehind;
    if calls != [] {
      var n := |calls| - 1;
      OrphanExactly(files, calls[..n], key);
      AtMostOneHolder(files, calls[..n]);
      StepOrphan(Steps(LockState(files, []), calls[..n]), calls[n], key);
    }
  }

  // ---- the objects -----------------------------------------------------------------------------

  class LockHandle {
    const key: LockKey
    var open: bool
    var released: bool

    constructor (key: LockKey)
      ensures this.key == key && open && !released
    {
      this.key, open, released := key, true, false;
    }
  }

  class LockDirectory {
    var files: set<LockKey>
    ghost var handles: seq<LockHandle>

    constructor (files: set<LockKey>)
      ensures Valid() && Model() == LockState(files, [])
    {
      this.files, handles := files, [];
    }

    ghost predicate Valid()
      reads this
    {
      forall i, j | 0 <= i < j < |handles| :: handles[i] != handles[j]
    }

    ghost function Model(): LockState
      reads this, handles
    {
      LockState(files, seq(|handles|, i requires 0 <= i < |handles| reads this, handles =>
        HandleState(handles[i].key, handles[i].released)))
    }

    method AcquireLock(key: LockKey, openFails: bool, writeFails: bool) returns (r: Option<LockHandle>)
      requires Valid()
      modifies this
      ensures Valid()
      ensures Model() == Step(old(Model()), Acquire(key, openFails, writeFails))
      ensures r.Some? <==> ValidProfile(key.profileId) && !openFails && !writeFails && key !in old(files)
      ensures r.Some? ==>
        fresh(r.value) && handles == old(handles) + [r.value] && r.value.key == key && !r.value.released
      ensures r == None ==> handles == old(handles)
    {
      if !ValidProfile(key.profileId) { return None; }
      if openFails || key in files { return None; }
      files := files + {key};
      if writeFails { return None; }
      var h := new LockHandle(key);
      handles := handles + [h];
      r := Some(h);
    }

    method ReleaseHandle(h: LockHandle, unlinkFails: bool)
      requires Valid() && h in handles
      modifies this`files, h
      ensures Valid() && handles == old(handles) && h.released
      ensures forall i | 0 <= i < |handles| && handles[i] == h :: Model() == Step(old(Model()), Release(i, unlinkFails))
      ensures old(h.released) ==> files == old(files)
    {
      if h.released { return; }
      h.released := true;
      if h.open { h.open := false; }
      if h.key in files && !unlinkFails {
        files := files - {h.key};
      }
    }
  }
}
