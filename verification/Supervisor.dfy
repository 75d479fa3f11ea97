/** The child supervisor: its restart loop and the back-off schedule, in 64-bit arithmetic. */
module Supervisor {
  import opened Basics

  const TWO_63: int := 0x8000_0000_0000_0000
  const TWO_64: int := 0x1_0000_0000_0000_0000
  const MILLISECOND: Duration := 1_000_000

  /** A count of nanoseconds in a signed 64-bit word. */
  type Duration = x: int | -0x8000_0000_0000_0000 <= x < 0x8000_0000_0000_0000

  datatype BackoffConfig = BackoffConfig(min: Duration, max: Duration, maxAttempts: int)

  // ---- the schedule ----------------------------------------------------------------------------

  function Pow2(s: nat): (r: nat)
    ensures r >= 1
  {
    if s == 0 then 1 else 2 * Pow2(s - 1)
  }

  /** The 64-bit word that the low bits of x spell. */
  function Wrap(x: int): Duration {
    var low := x % TWO_64;
    if low >= TWO_63 then low - TWO_64 else low
  }

  function ShiftLeft(x: Duration, s: nat): Duration {
    Wrap(x * Pow2(s))
  }

  function Floor(cfg: BackoffConfig): (r: Duration)
    ensures r > 0
  {
    if cfg.min <= 0 then MILLISECOND else cfg.min
  }

  function Ceiling(cfg: BackoffConfig): (r: Duration)
    ensures r > 0
  {
    if cfg.max <= 0 then Floor(cfg) else cfg.max
  }

  function Shift(n: int): (r: nat)
    ensures r <= 30
  {
    var from1 := if n < 1 then 1 else n;
    if from1 - 1 > 30 then 30 else from1 - 1
  }

  function BackoffDelay(cfg: BackoffConfig, n: int): (r: Duration)
    ensures 0 < r <= Ceiling(cfg)
  {
    var d := ShiftLeft(Floor(cfg), Shift(n));
    if d <= 0 || d > Ceiling(cfg) then Ceiling(cfg) else d
  }

  /** The schedule in unbounded arithmetic: doubled at every restart, thirty times at most, and capped. */
  function Ideal(cfg: BackoffConfig, n: int): int {
    var grown := Floor(cfg) * Pow2(Shift(n));
    if grown < Ceiling(cfg) then grown else Ceiling(cfg)
  }

  /** The shifted word still says how large the product is: it did not overflow, or not to a word in range. */
  predicate Unharmed(cfg: BackoffConfig, n: int) {
    var word := ShiftLeft(Floor(cfg), Shift(n));
    Floor(cfg) * Pow2(Shift(n)) < TWO_63 || word <= 0 || word >= Ceiling(cfg)
  }

  lemma WrapSmall(x: int)
    requires 0 <= x < TWO_64
    ensures Wrap(x) == if x < TWO_63 then x else x - TWO_64
  {
  }

  /** The delay is the ideal one exactly when the shift is unharmed. */
  lemma DelayExactly(cfg: BackoffConfig, n: int)
    ensures BackoffDelay(cfg, n) == Ideal(cfg, n) <==> Unharmed(cfg, n)
  {
    hide Pow2, Wrap;
    var grown := Floor(cfg) * Pow2(Shift(n));
    GrownPositive(Floor(cfg), Shift(n));
    if grown < TWO_63 { WrapSmall(grown); }
  }

  lemma GrownPositive(x: int, s: nat)
    requires x > 0
    ensures x * Pow2(s) >= x
  {
    hide Pow2;
    assert x * Pow2(s) - x == x * (Pow2(s) - 1);
  }

  lemma GrownStep(x: int, s: nat)
    ensures x * Pow2(s + 1) == 2 * (x * Pow2(s))
  {
    assert Pow2(s + 1) == 2 * Pow2(s);
  }

  lemma {:induction false} GrownMonotone(x: int, s: nat, t: nat)
    requires x > 0 && s <= t
    ensures x * Pow2(s) <= x * Pow2(t)
  {
    if s < t {
      GrownMonotone(x, s, t - 1);
      GrownStep(x, t - 1);
      GrownPositive(x, t - 1);
    }
  }

  /** With a floor below 2^33 ns the schedule is the ideal one throughout. */
  lemma SmallFloorUnharmed(cfg: BackoffConfig, n: int)
    requires Floor(cfg) < 0x2_0000_0000
    ensures BackoffDelay(cfg, n) == Ideal(cfg, n)
  {
    assert Unharmed(cfg, n) by {
      GrownMonotone(Floor(cfg), Shift(n), 30);
      assert Pow2(30) == 0x4000_0000 by { Pow2At30(); }
    }
    DelayExactly(cfg, n);
  }

  lemma Pow2At30()
    ensures Pow2(30) == 0x4000_0000
  {
    assert Pow2(10) == 1024;
    assert Pow2(20) == 1024 * Pow2(10);
    assert Pow2(30) == 1024 * Pow2(20);
  }

  /** Some earlier doubling wrapped to a word that is not positive, which the code reads as the ceiling. */
  lemma {:induction false} FirstOverflow(x: Duration, s: nat) returns (t: nat)
    requires x > 0 && x * Pow2(s) >= TWO_63
    ensures t <= s && x * Pow2(t) >= TWO_63 && ShiftLeft(x, t) < 0
  {
    hide Wrap;
    assert x * Pow2(0) == x;
    t := s;
    if s > 0 {
      if x * Pow2(s - 1) >= TWO_63 {
        t := FirstOverflow(x, s - 1);
      } else {
        GrownStep(x, s - 1);
        GrownPositive(x, s);
        WrapSmall(x * Pow2(s));
      }
    }
  }

  /**
   * The ideal schedule starts at the floor, one millisecond if none is set, and doubles up to the ceiling, which
   * is the floor if none is set; after thirty doublings it stays as it is.
   */
  lemma {:induction false} IdealExactly(cfg: BackoffConfig, n: int)
    ensures
      var floor := if cfg.min <= 0 then 1_000_000 else cfg.min;
      var ceiling := if cfg.max <= 0 then floor else cfg.max;
      && (n <= 1 ==> Ideal(cfg, n) == if floor < ceiling then floor else ceiling)
      && (1 <= n <= 30 ==>
            Ideal(cfg, n + 1) == if 2 * Ideal(cfg, n) < ceiling then 2 * Ideal(cfg, n) else ceiling)
      && (n >= 31 ==> Ideal(cfg, n + 1) == Ideal(cfg, n))
  {
    hide Pow2;
    if n <= 1 {
      assert Pow2(0) == 1 by { PowStart(); }
    }
    if 1 <= n <= 30 {
      GrownStep(Floor(cfg), n - 1);
      GrownPositive(Floor(cfg), n - 1);
    }
  }

  lemma PowStart()
    ensures Pow2(0) == 1
  {
  }

  /**
   * The shift is harmed exactly when the product leaves 63 bits while its low 64 bits are a number between 0 and
   * the ceiling; then that number is the delay.
   */
  lemma {:induction false} HarmedExactly(cfg: BackoffConfig, n: int)
    ensures
      var grown := Floor(cfg) * Pow2(Shift(n));
      var low := grown % 0x1_0000_0000_0000_0000;
      && (!Unharmed(cfg, n) <==> grown >= 0x8000_0000_0000_0000 && 0 < low < Ceiling(cfg))
      && (!Unharmed(cfg, n) ==> BackoffDelay(cfg, n) == low)
  {
    hide Pow2, Floor, Ceiling, Shift;
  }

  ghost predicate NeverShrinks(cfg: BackoffConfig) {
    forall m, n | m <= n :: BackoffDelay(cfg, m) <= BackoffDelay(cfg, n)
  }

  ghost predicate AlwaysIdeal(cfg: BackoffConfig) {
    forall n :: BackoffDelay(cfg, n) == Ideal(cfg, n)
  }

  /** The schedule never shrinks exactly when no shift is harmed, which is when it is the ideal one. */
  lemma NeverShrinksExactly(cfg: BackoffConfig)
    ensures NeverShrinks(cfg) <==> AlwaysIdeal(cfg)
    ensures AlwaysIdeal(cfg) <==> forall n :: Unharmed(cfg, n)
  {
    hide Pow2, Wrap, ShiftLeft, BackoffDelay, Ideal, Unharmed;
    forall n ensures BackoffDelay(cfg, n) == Ideal(cfg, n) <==> Unharmed(cfg, n) { DelayExactly(cfg, n); }
    if AlwaysIdeal(cfg) {
      forall m, n | m <= n ensures BackoffDelay(cfg, m) <= BackoffDelay(cfg, n) { IdealMonotone(cfg, m, n); }
    }
    if NeverShrinks(cfg) {
      forall n ensures Unharmed(cfg, n) {
        if !Unharmed(cfg, n) {
          HarmShrinks(cfg, n);
        }
      }
    }
  }

  lemma IdealMonotone(cfg: BackoffConfig, m: int, n: int)
    requires m <= n
    ensures Ideal(cfg, m) <= Ideal(cfg, n)
  {
    GrownMonotone(Floor(cfg), Shift(m), Shift(n));
  }

  lemma HarmShrinks(cfg: BackoffConfig, n: int)
    requires !Unharmed(cfg, n)
    ensures exists m :: m <= n && BackoffDelay(cfg, m) > BackoffDelay(cfg, n)
  {
    hide Pow2, Wrap;
    var t := FirstOverflow(Floor(cfg), Shift(n));
    assert Shift(t + 1) == t;
    assert BackoffDelay(cfg, t + 1) == Ceiling(cfg);
  }

  /** With a floor of 2^34 + 1 ns, and a ceiling no smaller, the thirty-first delay is a sixteenth of the first. */
  lemma {:induction false} LargeFloorShrinks(max: Duration, maxAttempts: int)
    requires max >= 0x4_0000_0001
    ensures var cfg := BackoffConfig(0x4_0000_0001, max, maxAttempts);
      BackoffDelay(cfg, 1) == 0x4_0000_0001 && BackoffDelay(cfg, 31) == 0x4000_0000 && !NeverShrinks(cfg)
  {
    var cfg := BackoffConfig(0x4_0000_0001, max, maxAttempts);
    Pow2At30();
    assert Pow2(0) == 1;
    assert ShiftLeft(0x4_0000_0001, 0) == 0x4_0000_0001;
    assert ShiftLeft(0x4_0000_0001, 30) == 0x4000_0000;
  }

  // ---- the restart loop ------------------------------------------------------------------------

  /** How one child ends: cleanly, with an exit status, or with an error that carries none. */
  datatype Attempt = Clean | Exited(status: int) | Broken

  function CodeOf(a: Attempt): int {
    match a
    case Clean => 0
    case Exited(status) => status
    case Broken => -1
  }

  /** What the loop cannot see ahead: how each child ends, and at which of its checks it is first cancelled. */
  datatype World = World(child: nat -> Attempt, cancelledAt: Option<nat>)

  predicate Cancelled(w: World, check: nat) {
    w.cancelledAt.Some? && w.cancelledAt.value <= check
  }

  /** Each attempt makes three checks: before it, after it, and while sleeping for the next. */
  function Check(k: nat, which: nat): nat {
    3 * k + which
  }

  datatype Verdict = Unusable | Stopped | Done | GaveUp | NotRestarted
  datatype End = End(verdict: Verdict, code: int, children: nat, sleeps: seq<Duration>)

  function Budget(cfg: BackoffConfig): (r: nat)
    ensures r >= 1
  {
    if cfg.maxAttempts <= 0 then 1 else cfg.maxAttempts + 1
  }

  /** How the loop goes on once k children have failed and been slept for. */
  function Finish(cfg: BackoffConfig, w: World, k: nat, sleeps: seq<Duration>): End
    requires k < Budget(cfg)
    decreases Budget(cfg) - k
  {
    if Cancelled(w, Check(k, 0)) then End(Stopped, 0, k, sleeps)
    else if w.child(k) == Clean then End(Done, 0, k + 1, sleeps)
    else if Cancelled(w, Check(k, 1)) then End(Stopped, 0, k + 1, sleeps)
    else if cfg.maxAttempts <= 0 then End(NotRestarted, CodeOf(w.child(k)), k + 1, sleeps)
    else if k + 1 == Budget(cfg) then End(GaveUp, 1, k + 1, sleeps)
    else
      var slept := sleeps + [BackoffDelay(cfg, k + 1)];
      if Cancelled(w, Check(k, 2)) then End(Stopped, 0, k + 1, slept)
      else Finish(cfg, w, k + 1, slept)
  }

  function Sum(s: seq<Duration>): int {
    if s == [] then 0 else Sum(s[..|s| - 1]) + s[|s| - 1]
  }

  lemma {:induction false} SumBound(s: seq<Duration>, top: int)
    requires forall i | 0 <= i < |s| :: s[i] <= top
    ensures Sum(s) <= |s| * top
  {
    if s != [] { SumBound(s[..|s| - 1], top); }
  }

  class Supervisor {
    const command: string
    const wired: bool
    const backoff: BackoffConfig
    var exitCode: int
    var children: nat
    var sleeps: seq<Duration>

    /** wired says whether the three standard streams have been set. */
    constructor (command: string, wired: bool, backoff: BackoffConfig)
      ensures this.command == command && this.wired == wired && this.backoff == backoff
      ensures exitCode == 0 && children == 0 && sleeps == []
    {
      this.command, this.wired, this.backoff := command, wired, backoff;
      exitCode, children, sleeps := 0, 0, [];
    }

    method Run(w: World) returns (verdict: Verdict)
      requires children == 0 && sleeps == []
      modifies this
      ensures verdict == Unusable <==> command == "" || !wired
      ensures verdict == Unusable ==> exitCode == old(exitCode) && children == 0 && sleeps == []
      ensures verdict != Unusable ==> End(verdict, exitCode, children, sleeps) == Finish(backoff, w, 0, [])
    {
      if command == "" || !wired { return Unusable; }
      var attempts := 0;
      while true
        invariant attempts == children < Budget(backoff)
        invariant Finish(backoff, w, 0, []) == Finish(backoff, w, children, sleeps)
        decreases Budget(backoff) - children
      {
        if Cancelled(w, Check(attempts, 0)) { exitCode := 0; return Stopped; }
        var end := w.child(children);
        children := children + 1;
        attempts := attempts + 1;
        if end == Clean { exitCode := 0; return Done; }
        if Cancelled(w, Check(attempts - 1, 1)) { exitCode := 0; return Stopped; }
        var max := backoff.maxAttempts;
        if max <= 0 || attempts > max {
          if max > 0 { exitCode := 1; return GaveUp; }
          exitCode := CodeOf(end);
          return NotRestarted;
        }
        sleeps := sleeps + [BackoffDelay(backoff, attempts)];
        if Cancelled(w, Check(attempts - 1, 2)) { exitCode := 0; return Stopped; }
      }
    }
  }

  /** The first of the loop's checks to see a cancellation comes after this one. */
  ghost predicate CancelledAfter(w: World, check: int) {
    w.cancelledAt.Some? ==> w.cancelledAt.value > check
  }

  /**
   * What a supervisor may do: restart after failures only, sleep the scheduled delay before each restart, stay
   * within its budget, and stop at the first check that sees a cancellation. A child's exit status is passed on
   * where there are no restarts, and -1 for one that has none.
   */
  ghost predicate Right(cfg: BackoffConfig, w: World, e: End) {
    var budget, last := (if cfg.maxAttempts <= 0 then 1 else cfg.maxAttempts + 1), e.children - 1;
    && e.children <= budget && |e.sleeps| < budget && last <= |e.sleeps| <= e.children
    && (forall i: nat | i < |e.sleeps| :: e.sleeps[i] == BackoffDelay(cfg, i + 1) && w.child(i) != Clean)
    && match e.verdict
       case Unusable => false
       case Done => |e.sleeps| == last && w.child(last) == Clean && CancelledAfter(w, 3 * last) && e.code == 0
       case Stopped =>
         && e.code == 0 && w.cancelledAt.Some?
         && if |e.sleeps| == last then w.cancelledAt.value == 3 * last + 1 && w.child(last) != Clean
            else w.cancelledAt.value in {3 * last + 2, 3 * last + 3}
       case GaveUp =>
         && cfg.maxAttempts > 0 && e.children == budget && |e.sleeps| == last
         && w.child(last) != Clean && CancelledAfter(w, 3 * last + 1) && e.code == 1
       case NotRestarted =>
         && cfg.maxAttempts <= 0 && e.children == 1 && e.sleeps == []
         && w.child(0) != Clean && CancelledAfter(w, 1)
         && e.code == if w.child(0).Exited? then w.child(0).status else -1
  }

  lemma {:induction false} FinishRight(cfg: BackoffConfig, w: World, k: nat, sleeps: seq<Duration>)
    requires k < Budget(cfg) && |sleeps| == k && (k > 0 ==> CancelledAfter(w, 3 * k - 1))
    requires forall i: nat | i < k :: sleeps[i] == BackoffDelay(cfg, i + 1) && w.child(i) != Clean
    ensures Right(cfg, w, Finish(cfg, w, k, sleeps))
    decreases Budget(cfg) - k
  {
    hide BackoffDelay;
    if k + 1 < Budget(cfg) && w.child(k) != Clean && CancelledAfter(w, 3 * k + 2) {
      FinishRight(cfg, w, k + 1, sleeps + [BackoffDelay(cfg, k + 1)]);
    }
  }

  lemma {:induction false} RightFinish(cfg: BackoffConfig, w: World, e: End, k: nat)
    requires Right(cfg, w, e) && k <= |e.sleeps|
    ensures Finish(cfg, w, k, e.sleeps[..k]) == e
    decreases |e.sleeps| - k
  {
    hide BackoffDelay;
    if k < |e.sleeps| {
      assert e.sleeps[..k] + [e.sleeps[k]] == e.sleeps[..k + 1];
      assert |e.sleeps| == k + 1 ==> e.sleeps[..k + 1] == e.sleeps;
      RightFinish(cfg, w, e, k + 1);
    } else {
      assert e.sleeps[..k] == e.sleeps;
    }
  }

  /** There is one way to do right, and it is the loop's. */
  lemma EndExactly(cfg: BackoffConfig, w: World, e: End)
    ensures e == Finish(cfg, w, 0, []) <==> Right(cfg, w, e)
  {
    hide Finish, Right;
    FinishRight(cfg, w, 0, []);
    if Right(cfg, w, e) {
      RightFinish(cfg, w, e, 0);
      assert e.sleeps[..0] == [];
    }
  }

  /** At most one child more than the allowed restarts, each restart slept for no longer than the ceiling. */
  lemma {:induction false} RestartsBounded(cfg: BackoffConfig, w: World)
    ensures
      var e, restarts := Finish(cfg, w, 0, []), if cfg.maxAttempts <= 0 then 0 else cfg.maxAttempts;
      e.children <= restarts + 1 && |e.sleeps| <= restarts && Sum(e.sleeps) <= restarts * Ceiling(cfg)
  {
    hide Finish, BackoffDelay;
    var e := Finish(cfg, w, 0, []);
    EndExactly(cfg, w, e);
    forall i | 0 <= i < |e.sleeps| ensures e.sleeps[i] <= Ceiling(cfg) {
      assert e.sleeps[i] == BackoffDelay(cfg, i + 1);
    }
    SumBound(e.sleeps, Ceiling(cfg));
    MoreTimes(|e.sleeps|, if cfg.maxAttempts <= 0 then 0 else cfg.maxAttempts, Ceiling(cfg));
  }

  lemma MoreTimes(a: nat, b: nat, top: nat)
    requires a <= b
    ensures a * top <= b * top
  {
    assert b * top - a * top == (b - a) * top;
  }

  /**
   * Never cancelled, the supervisor succeeds exactly when one of the children it may start exits cleanly; it
   * starts no child after the first such, and otherwise uses up its budget.
   */
  lemma {:induction false} UncancelledExactly(cfg: BackoffConfig, w: World)
    requires w.cancelledAt == None
    ensures
      var e, budget := Finish(cfg, w, 0, []), if cfg.maxAttempts <= 0 then 1 else cfg.maxAttempts + 1;
      && (e.verdict == Done <==> exists k: nat :: k < budget && w.child(k) == Clean)
      && (e.verdict == Done ==>
            && e.children > 0 && w.child(e.children - 1) == Clean
            && forall j: nat | j + 1 < e.children :: w.child(j) != Clean)
      && (e.verdict != Done ==>
            e.children == budget && e.verdict == if cfg.maxAttempts > 0 then GaveUp else NotRestarted)
      && |e.sleeps| == e.children - 1
  {
    hide Finish, BackoffDelay;
    EndExactly(cfg, w, Finish(cfg, w, 0, []));
  }
}
