/** The rule that both page allocators follow: take the lowest start whose whole run is free. */
module FirstFit {

  predicate In(i: nat, start: nat, count: nat) {
    start <= i < start + count
  }

  ghost function Range(start: nat, count: nat): set<nat> {
    set i | 0 <= i < start + count && In(i, start, count)
  }

  ghost predicate FreeRun(free: set<nat>, start: nat, count: nat) {
    forall i :: start <= i < start + count ==> i in free
  }

  ghost predicate LowestRun(free: set<nat>, start: nat, count: nat) {
    FreeRun(free, start, count) && forall s :: 0 <= s < start ==> !FreeRun(free, s, count)
  }

  ghost predicate NoRun(free: set<nat>, count: nat) {
    forall s: nat :: !FreeRun(free, s, count)
  }

  /** The rule determines the answer. */
  lemma LowestIsUnique(free: set<nat>, a: nat, b: nat, count: nat)
    requires LowestRun(free, a, count) && LowestRun(free, b, count)
    ensures a == b
  {
  }

  /** Giving back what was taken restores the free pages. */
  lemma TakeAndGive(free: set<nat>, start: nat, count: nat)
    requires FreeRun(free, start, count)
    ensures free - Range(start, count) + Range(start, count) == free
    ensures free - Range(start, count) !! Range(start, count)
  {
  }
}
