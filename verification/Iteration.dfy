/** A workload does its work one iteration at a time; n iterations are n applications of one step. */
module Iteration {
  function Iterate<S>(step: S -> S, s: S, n: nat): S {
    if n == 0 then s else step(Iterate(step, s, n - 1))
  }

  /** Work can be cut into chunks anywhere. */
  lemma {:induction false} IterateAdd<S>(step: S -> S, s: S, m: nat, n: nat)
    ensures Iterate(step, Iterate(step, s, m), n) == Iterate(step, s, m + n)
  {
    if n > 0 {
      IterateAdd(step, s, m, n - 1);
    }
  }
}
