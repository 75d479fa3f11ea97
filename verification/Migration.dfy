/** Migration runs: a linear state machine whose records are shared between interleaved asynchronous calls. */
module Migration {
  import opened Basics

  datatype MigrationState =
    | Exported | Validated | ImportDryRun | Shadowing | ReplayVerified | CutoverReady | CutoverActive
    | RollbackWindow | Retired

  function LegalTransitions(s: MigrationState): seq<MigrationState> {
    match s
    case Exported => [Validated]
    case Validated => [ImportDryRun]
    case ImportDryRun => [Shadowing]
    case Shadowing => [ReplayVerified]
    case ReplayVerified => [CutoverReady]
    case CutoverReady => [CutoverActive]
    case CutoverActive => [RollbackWindow]
    case RollbackWindow => [Retired]
    case Retired => []
  }

  /** The position of a state in the canonical order. */
  function Index(s: MigrationState): nat {
    match s
    case Exported => 0
    case Validated => 1
    case ImportDryRun => 2
    case Shadowing => 3
    case ReplayVerified => 4
    case CutoverReady => 5
    case CutoverActive => 6
    case RollbackWindow => 7
    case Retired => 8
  }

  predicate IsLegal(s: MigrationState, t: MigrationState) {
    t in LegalTransitions(s)
  }

  datatype Entry = Entry(fromState: Option<MigrationState>, toState: MigrationState, reason: string)

  /** The part of a run record that calls change. */
  datatype Rec = Rec(state: MigrationState, history: seq<Entry>)

  datatype Op = ToState(to: MigrationState, reason: string) | Read

  function Fresh(initial: MigrationState, reason: string): Rec {
    Rec(initial, [Entry(None, initial, reason)])
  }

  function Append(r: Rec, e: Entry): Rec {
    Rec(e.toState, r.history + [e])
  }

  /** What a call does once its awaited lookup has come back: check and append in one go. */
  function Resume(r: Rec, op: Op): Rec {
    match op
    case Read => Append(r, Entry(Some(r.state), r.state, "read"))
    case ToState(to, reason) =>
      if r.state == to || !IsLegal(r.state, to) then r
      else Append(r, Entry(Some(r.state), to, reason))
  }

  // ---- linear histories ------------------------------------------------------------------------

  predicate IsRead(e: Entry) {
    e.fromState == Some(e.toState)
  }

  /** The number of entries after the first that moved the run on. */
  function Moves(history: seq<Entry>): nat {
    if |history| <= 1 then 0
    else Moves(history[..|history| - 1]) + (if IsRead(history[|history| - 1]) then 0 else 1)
  }

  ghost predicate Linear(initial: MigrationState, r: Rec) {
    var h := r.history;
    && h != [] && h[0].fromState == None && h[0].toState == initial
    && (forall i | 1 <= i < |h| :: h[i].fromState == Some(h[i - 1].toState))
    && (forall i | 1 <= i < |h| && !IsRead(h[i]) :: IsLegal(h[i - 1].toState, h[i].toState))
    && r.state == h[|h| - 1].toState
    && Index(r.state) == Index(initial) + Moves(h)
  }

  lemma LegalIsNext(s: MigrationState, t: MigrationState)
    ensures IsLegal(s, t) <==> Index(t) == Index(s) + 1
    ensures Index(s) == Index(t) ==> s == t
  {
  }

  lemma FreshLinear(initial: MigrationState, reason: string)
    ensures Linear(initial, Fresh(initial, reason))
  {
  }

  lemma ResumeKeepsLinear(initial: MigrationState, r: Rec, op: Op)
    requires Linear(initial, r)
    ensures Linear(initial, Resume(r, op))
    ensures Index(Resume(r, op).state) >= Index(r.state)
    ensures op.Read? ==> Resume(r, op).state == r.state
    ensures r.history <= Resume(r, op).history
  {
    var next := Resume(r, op);
    if next != r {
      assert next.history[..|r.history|] == r.history;
      if op.ToState? { LegalIsNext(r.state, op.to); }
    }
  }

  /** Along a linear history the target states never go back. */
  lemma {:induction false} NeverBack(initial: MigrationState, r: Rec, i: nat, j: nat)
    requires Linear(initial, r) && i <= j < |r.history|
    ensures Index(r.history[i].toState) <= Index(r.history[j].toState)
    ensures 1 <= i < j && !IsRead(r.history[j]) ==> Index(r.history[i].toState) < Index(r.history[j].toState)
    decreases j
  {
    if i < j {
      NeverBack(initial, r, i, j - 1);
      if !IsRead(r.history[j]) { LegalIsNext(r.history[j - 1].toState, r.history[j].toState); }
    }
  }

  /** No edge is taken twice. */
  lemma EdgesOnce(initial: MigrationState, r: Rec, i: nat, j: nat)
    requires Linear(initial, r) && 1 <= i < j < |r.history|
    requires !IsRead(r.history[i]) && !IsRead(r.history[j])
    ensures r.history[i].toState != r.history[j].toState && r.history[i].fromState != r.history[j].fromState
  {
    NeverBack(initial, r, i, j);
    NeverBack(initial, r, i, j - 1);
    LegalIsNext(r.history[i - 1].toState, r.history[i].toState);
  }

  /** Once retired, a run only collects reads. */
  lemma RetiredIsFinal(initial: MigrationState, r: Rec, op: Op)
    requires Linear(initial, r) && r.state == Retired
    ensures Resume(r, op).state == Retired
    ensures Resume(r, op).history == r.history
      || (op.Read? && Resume(r, op).history == r.history + [Entry(Some(Retired), Retired, "read")])
  {
  }

  // ---- every interleaving ----------------------------------------------------------------------

  /** Runs by id, and the calls that wait for their lookup, each with the run it was given. */
  datatype System = System(runs: map<nat, Rec>, initial: map<nat, MigrationState>, pending: seq<(nat, Op)>, next: nat)

  datatype Event =
    | Begin(state: MigrationState, reason: string)
    | Call(runId: nat, op: Op)      // the synchronous part: look the run up
    | Continue(i: nat)              // the awaited lookup of pending call i comes back

  function RemoveAt<T>(s: seq<T>, i: nat): seq<T>
    requires i < |s|
  {
    s[..i] + s[i + 1..]
  }

  function Happen(sys: System, e: Event): System {
    match e
    case Begin(state, reason) =>
      var id := sys.next + 1;
      System(sys.runs[id := Fresh(state, reason)], sys.initial[id := state], sys.pending, id)
    case Call(runId, op) =>
      if runId in sys.runs then sys.(pending := sys.pending + [(runId, op)]) else sys
    case Continue(i) =>
      if i >= |sys.pending| || sys.pending[i].0 !in sys.runs then sys
      else
        var (runId, op) := sys.pending[i];
        sys.(runs := sys.runs[runId := Resume(sys.runs[runId], op)], pending := RemoveAt(sys.pending, i))
  }

  function HappenAll(sys: System, events: seq<Event>): System {
    if events == [] then sys else Happen(HappenAll(sys, events[..|events| - 1]), events[|events| - 1])
  }

  ghost predicate AllLinear(sys: System) {
    && sys.initial.Keys == sys.runs.Keys
    && (forall id | id in sys.runs :: id <= sys.next && Linear(sys.initial[id], sys.runs[id]))
    && (forall i | 0 <= i < |sys.pending| :: sys.pending[i].0 in sys.runs)
  }

  /** A run is still there, its history has only grown and its state has not gone back. */
  ghost predicate OnlyForward(before: map<nat, Rec>, after: map<nat, Rec>, id: nat)
    requires id in before
  {
    && id in after
    && before[id].history <= after[id].history
    && Index(before[id].state) <= Index(after[id].state)
  }

  /** No run disappears, no history is cut and no state goes back. */
  ghost predicate AllForward(before: System, after: System) {
    forall id | id in before.runs :: OnlyForward(before.runs, after.runs, id)
  }

  lemma ForwardTwice(a: System, b: System, c: System)
    requires AllForward(a, b) && AllForward(b, c)
    ensures AllForward(a, c)
  {
    hide Index;
    forall id | id in a.runs ensures OnlyForward(a.runs, c.runs, id) {
      assert OnlyForward(a.runs, b.runs, id) && OnlyForward(b.runs, c.runs, id);
    }
  }

  lemma ForwardSelf(a: System)
    ensures AllForward(a, a)
  {
  }

  lemma HappenKeepsLinear(sys: System, e: Event)
    requires AllLinear(sys)
    ensures AllLinear(Happen(sys, e))
    ensures AllForward(sys, Happen(sys, e))
  {
    hide Linear, Resume, Index;
    match e {
      case Begin(state, reason) => FreshLinear(state, reason);
      case Call(_, _) =>
      case Continue(i) =>
        if i < |sys.pending| {
          var (runId, op) := sys.pending[i];
          ResumeKeepsLinear(sys.initial[runId], sys.runs[runId], op);
          var rest := RemoveAt(sys.pending, i);
          forall j | 0 <= j < |rest| ensures rest[j].0 in sys.runs {
            assert rest[j] == sys.pending[if j < i then j else j + 1];
          }
        }
    }
  }

  const START: System := System(map[], map[], [], 0)

  /** However calls interleave, every run's history stays linear, and histories and states only move forward. */
  lemma {:induction false} EveryInterleavingLinear(events: seq<Event>, k: nat)
    requires k <= |events|
    ensures AllLinear(HappenAll(START, events))
    ensures AllForward(HappenAll(START, events[..k]), HappenAll(START, events))
    decreases |events|
  {
    hide AllForward, Happen, OnlyForward, Linear, Index;
    var end := HappenAll(START, events);
    if events == [] {
      ForwardSelf(end);
    } else {
      var n := |events| - 1;
      var before := HappenAll(START, events[..n]);
      EveryInterleavingLinear(events[..n], if k <= n then k else n);
      HappenKeepsLinear(before, events[n]);
      if k <= n {
        assert events[..n][..k] == events[..k];
        ForwardTwice(HappenAll(START, events[..k]), before, end);
      } else {
        assert events[..k] == events;
        ForwardSelf(end);
      }
    }
  }

  // ---- what calls that run to their end bring about ----------------------------------------------

  lemma HappenNext(events: seq<Event>, e: Event)
    ensures HappenAll(START, events + [e]) == Happen(HappenAll(START, events), e)
  {
    assert (events + [e])[..|events|] == events;
  }

  /** A new run has an id of its own and one entry. */
  lemma {:induction false} BegunExactly(events: seq<Event>, state: MigrationState, reason: string)
    ensures
      var before, after := HappenAll(START, events), HappenAll(START, events + [Begin(state, reason)]);
      && after.next !in before.runs && after.pending == before.pending
      && after.runs == before.runs[after.next := Rec(state, [Entry(None, state, reason)])]
  {
    hide Happen, HappenAll;
    HappenNext(events, Begin(state, reason));
    IdsSoFar(events);
    BeginStep(HappenAll(START, events), state, reason);
  }

  lemma {:induction false} BeginStep(sys: System, state: MigrationState, reason: string)
    ensures
      var after := Happen(sys, Begin(state, reason));
      && after.next == sys.next + 1 && after.pending == sys.pending
      && after.runs == sys.runs[after.next := Rec(state, [Entry(None, state, reason)])]
  {
  }

  lemma {:induction false} IdsSoFar(events: seq<Event>)
    ensures forall id | id in HappenAll(START, events).runs :: id <= HappenAll(START, events).next
  {
    if events != [] {
      IdsSoFar(events[..|events| - 1]);
      hide Resume, Fresh;
    }
  }

  /** A call, and then its continuation. */
  function CallOf(id: nat, op: Op): seq<Event> {
    [Call(id, op), Continue(0)]
  }

  /** A transition to the state after the present one is made and recorded. */
  lemma {:induction false} TransitionMade(events: seq<Event>, id: nat, to: MigrationState, reason: string)
    requires
      var before := HappenAll(START, events);
      before.pending == [] && id in before.runs && Index(to) == Index(before.runs[id].state) + 1
    ensures
      var before := HappenAll(START, events);
      var after, run := HappenAll(START, events + CallOf(id, ToState(to, reason))), before.runs[id];
      && after.pending == [] && after.next == before.next
      && after.runs == before.runs[id := Rec(to, run.history + [Entry(Some(run.state), to, reason)])]
  {
    hide HappenAll, Index, LegalTransitions;
    var before, call := HappenAll(START, events), Call(id, ToState(to, reason));
    HappenNext(events, call);
    HappenNext(events + [call], Continue(0));
    assert events + CallOf(id, ToState(to, reason)) == events + [call] + [Continue(0)];
    LegalIsNext(before.runs[id].state, to);
    MadeStep(before, id, to, reason);
  }

  lemma {:induction false} MadeStep(sys: System, id: nat, to: MigrationState, reason: string)
    requires sys.pending == [] && id in sys.runs && IsLegal(sys.runs[id].state, to) && sys.runs[id].state != to
    ensures
      var after, run := Happen(Happen(sys, Call(id, ToState(to, reason))), Continue(0)), sys.runs[id];
      && after.pending == [] && after.next == sys.next
      && after.runs == sys.runs[id := Rec(to, run.history + [Entry(Some(run.state), to, reason)])]
  {
    hide LegalTransitions;
  }

  const LIFE: seq<MigrationState> := [
    Exported, Validated, ImportDryRun, Shadowing, ReplayVerified, CutoverReady, CutoverActive, RollbackWindow, Retired]

  function LifeEvents(k: nat, reason: string): seq<Event>
    requires k < |LIFE|
  {
    if k == 0 then [Begin(Exported, reason)] else LifeEvents(k - 1, reason) + CallOf(1, ToState(LIFE[k], reason))
  }

  function LifeHistory(k: nat, reason: string): seq<Entry>
    requires k < |LIFE|
  {
    if k == 0 then [Entry(None, Exported, reason)]
    else LifeHistory(k - 1, reason) + [Entry(Some(LIFE[k - 1]), LIFE[k], reason)]
  }

  /** The eight transitions in order take a new run from `Exported` to `Retired`, one entry each. */
  lemma {:induction false} FullLife(k: nat, reason: string)
    requires k < |LIFE|
    ensures
      var sys := HappenAll(START, LifeEvents(k, reason));
      sys.pending == [] && sys.runs == map[1 := Rec(LIFE[k], LifeHistory(k, reason))]
  {
    hide Happen, HappenAll;
    if k == 0 {
      BegunExactly([], Exported, reason);
      assert [] + [Begin(Exported, reason)] == [Begin(Exported, reason)];
      FirstRun(reason);
    } else {
      FullLife(k - 1, reason);
      TransitionMade(LifeEvents(k - 1, reason), 1, LIFE[k], reason);
    }
  }

  lemma FirstRun(reason: string)
    ensures HappenAll(START, []) == START && HappenAll(START, [Begin(Exported, reason)]).next == 1
  {
    assert [Begin(Exported, reason)][..0] == [];
  }

  // ---- why the record has to be shared ---------------------------------------------------------

  /** The same continuation over a copy taken when the lookup was made. */
  function ResumeCopy(r: Rec, seen: MigrationState, op: Op): Rec {
    match op
    case Read => Append(r, Entry(Some(seen), seen, "read"))
    case ToState(to, reason) =>
      if seen == to || !IsLegal(seen, to) then r else Append(r, Entry(Some(seen), to, reason))
  }

  /** With copies, a read that was overtaken by a transition moves the run backwards. */
  lemma {:induction false} CopiedReadGoesBack(r: Rec, to: MigrationState, reason: string)
    requires IsLegal(r.state, to)
    ensures
      var moved := ResumeCopy(r, r.state, ToState(to, reason));
      var read := ResumeCopy(moved, r.state, Read);
      Index(read.state) < Index(moved.state)
  {
    LegalIsNext(r.state, to);
  }

  /** With copies, two overlapping requests for one transition record its edge twice. */
  lemma {:induction false} CopiedTransitionTwice(initial: MigrationState, r: Rec, to: MigrationState, reason: string)
    requires Linear(initial, r) && IsLegal(r.state, to)
    ensures
      var once := ResumeCopy(r, r.state, ToState(to, reason));
      var twice := ResumeCopy(once, r.state, ToState(to, reason));
      && Linear(initial, once) && !Linear(initial, twice)
      && Resume(Resume(r, ToState(to, reason)), ToState(to, reason)) == Resume(r, ToState(to, reason))
  {
    LegalIsNext(r.state, to);
    ResumeKeepsLinear(initial, r, ToState(to, reason));
    var twice := ResumeCopy(ResumeCopy(r, r.state, ToState(to, reason)), r.state, ToState(to, reason));
    var n := |r.history|;
    assert twice.history[n + 1].fromState == Some(r.state) && twice.history[n].toState == to;
  }

  // ---- the objects -----------------------------------------------------------------------------

  class MigrationRecord {
    const runId: nat
    ghost const initial: MigrationState
    var state: MigrationState
    var history: seq<Entry>

    constructor (runId: nat, initial: MigrationState, reason: string)
      ensures this.runId == runId && this.initial == initial && Model() == Fresh(initial, reason)
    {
      this.runId, this.initial, state := runId, initial, initial;
      history := [Entry(None, initial, reason)];
    }

    ghost function Model(): Rec
      reads this
    {
      Rec(state, history)
    }
  }

  /** A call that awaits its lookup; the record is the one the sidecar returned. */
  datatype Waiting = Waiting(record: MigrationRecord, op: Op)

  datatype Outcome = NotFound | Unchanged | Refused | Appended

  /** The service over the in-memory sidecar: live records, an id counter, and the calls in flight. */
  class MigrationService {
    var runs: map<nat, MigrationRecord>
    var counter: nat
    var waiting: seq<Waiting>

    constructor ()
      ensures Valid() && runs == map[] && waiting == []
    {
      runs, counter, waiting := map[], 0, [];
    }

    /** Each id leads to its own record, and a call in flight holds the very record its id leads to. */
    ghost predicate Valid()
      reads this, runs.Values
    {
      && (forall id | id in runs :: id <= counter && runs[id].runId == id && Linear(runs[id].initial, runs[id].Model()))
      && (forall i | 0 <= i < |waiting| ::
            waiting[i].record.runId in runs && runs[waiting[i].record.runId] == waiting[i].record)
    }

    method Begin(initial: MigrationState, reason: string) returns (record: MigrationRecord)
      requires Valid()
      modifies this
      ensures Valid() && fresh(record) && record.Model() == Fresh(initial, reason)
      ensures record.runId !in old(runs) && runs == old(runs)[record.runId := record] && waiting == old(waiting)
    {
      counter := counter + 1;
      record := new MigrationRecord(counter, initial, reason);
      runs := runs[counter := record];
      FreshLinear(initial, reason);
    }

    /** The part of `transition` or `get` before the await. */
    method Start(runId: nat, op: Op) returns (found: bool)
      requires Valid()
      modifies this`waiting
      ensures Valid() && found == (runId in runs)
      ensures waiting == if found then old(waiting) + [Waiting(runs[runId], op)] else old(waiting)
    {
      found := runId in runs;
      if found { waiting := waiting + [Waiting(runs[runId], op)]; }
    }

    /** The part after the await: read the record again, check, append through the storage. */
    method Finish(i: nat) returns (r: Outcome)
      requires Valid() && i < |waiting|
      modifies this`waiting, waiting[i].record
      ensures Valid() && waiting == RemoveAt(old(waiting), i)
      ensures old(waiting[i]).record.Model() == Resume(old(waiting[i].record.Model()), old(waiting[i]).op)
      ensures forall id | id in runs && runs[id] != old(waiting[i]).record :: runs[id].Model() == old(runs[id].Model())
      ensures r == Appended <==> old(waiting[i]).record.history != old(waiting[i].record.history)
      ensures r == Refused <==>
        old(waiting[i].op.ToState? && waiting[i].record.state != waiting[i].op.to
            && !IsLegal(waiting[i].record.state, waiting[i].op.to))
      ensures r == Unchanged <==> old(waiting[i].op.ToState? && waiting[i].record.state == waiting[i].op.to)
      ensures r == Appended || r == Unchanged || r == Refused
      ensures old(waiting[i].op.ToState? && IsLegal(waiting[i].record.state, waiting[i].op.to)) ==>
        var record, op := old(waiting[i]).record, old(waiting[i]).op;
        && r == Appended && record.state == op.to
        && record.history == old(waiting[i].record.history)
                             + [Entry(Some(old(waiting[i].record.state)), op.to, op.reason)]
      ensures old(waiting[i]).op.Read? ==>
        var record, state := old(waiting[i]).record, old(waiting[i].record.state);
        && r == Appended && record.state == state
        && record.history == old(waiting[i].record.history) + [Entry(Some(state), state, "read")]
      ensures r != Appended ==>
        var record := old(waiting[i]).record;
        record.state == old(waiting[i].record.state) && record.history == old(waiting[i].record.history)
    {
      var Waiting(current, op) := waiting[i];
      ResumeKeepsLinear(current.initial, current.Model(), op);
      ghost var before := waiting;
      waiting := RemoveAt(waiting, i);
      forall j | 0 <= j < |waiting| ensures waiting[j] == before[if j < i then j else j + 1] { }
      match op {
        case Read =>
          AppendTransition(current.runId, Entry(Some(current.state), current.state, "read"));
          return Appended;
        case ToState(to, reason) =>
          if current.state == to { return Unchanged; }
          if !IsLegal(current.state, to) { return Refused; }
          AppendTransition(current.runId, Entry(Some(current.state), to, reason));
          return Appended;
      }
    }

    /** The sidecar's append looks the run up again by its id. */
    method AppendTransition(runId: nat, e: Entry)
      requires runId in runs
      modifies runs[runId]
      ensures runs[runId].Model() == Append(old(runs[runId].Model()), e)
    {
      var record := runs[runId];
      record.history := record.history + [e];
      record.state := e.toState;
    }
  }
}
