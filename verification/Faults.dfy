/** Which calls to the file system fail, and stretches of time in which none does. */
module Faults {
  /** No call fails from one time on until another. */
  ghost predicate Clear(faults: nat -> bool, since: nat, until: int) {
    forall c | since <= c < until :: !faults(c)
  }

  /** Stretches of time without a failing call join, and have no failing call in their parts. */
  lemma ClearJoins(faults: nat -> bool)
    ensures forall a: nat, b: nat, c: int {:trigger Clear(faults, a, b), Clear(faults, b, c)} |
              a <= b <= c && Clear(faults, a, b) && Clear(faults, b, c) :: Clear(faults, a, c)
    ensures forall a: nat, b: nat, c: int {:trigger Clear(faults, a, c), Clear(faults, b, c)} |
              a <= b && Clear(faults, a, c) :: Clear(faults, b, c)
    ensures forall a: nat, b: int, c: int {:trigger Clear(faults, a, b), Clear(faults, a, c)} |
              b <= c && Clear(faults, a, c) :: Clear(faults, a, b)
    ensures forall a: nat, b: int {:trigger Clear(faults, a, b)} | b <= a :: Clear(faults, a, b)
  {
  }
}
