/** Induction along a run. */
module Runs {

  /** What holds at the start and carries over from each index to the next holds up to any index. */
  lemma {:induction false} UpTo(k: nat, holds: nat -> bool)
    requires holds(0)
    requires forall j: nat :: j < k && holds(j) ==> holds(j + 1)
    ensures holds(k)
  {
    if k > 0 {
      UpTo(k - 1, holds);
    }
  }

  /** What holds at the start and is kept by every step holds throughout. */
  lemma {:induction false} Along<S(!new)>(states: seq<S>, k: nat, holds: S -> bool)
    requires k < |states| && holds(states[0])
    requires forall j :: 0 <= j < k && holds(states[j]) ==> holds(states[j + 1])
    ensures holds(states[k])
  {
    UpTo(k, (j: nat) => j < |states| && holds(states[j]));
  }
}
