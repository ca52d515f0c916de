// Runs of a system whose steps may be impossible.

module Runs {
  import opened Wrappers

  /** The state after all steps, where each of them is possible. */
  function After<S, A>(step: (S, A) -> Option<S>, s: S, steps: seq<A>): (r: Option<S>) {
    if steps == [] then Some(s)
    else
      match After(step, s, steps[..|steps| - 1])
      case None => None
      case Some(before) => step(before, steps[|steps| - 1])
  }

  lemma {:induction false} PrefixRuns<S, A>(step: (S, A) -> Option<S>, s: S, steps: seq<A>, n: nat)
    requires After(step, s, steps).Some? && n <= |steps|
    ensures After(step, s, steps[..n]).Some?
    decreases |steps|
  {
    if n < |steps| {
      PrefixRuns(step, s, steps[..|steps| - 1], n);
      assert steps[..|steps| - 1][..n] == steps[..n];
    } else {
      assert steps[..n] == steps;
    }
  }

  /** Every step of a run is possible in the state before it. */
  lemma StepRuns<S, A>(step: (S, A) -> Option<S>, s: S, steps: seq<A>, n: nat)
    requires After(step, s, steps).Some? && n < |steps|
    ensures var before := After(step, s, steps[..n]);
      && before.Some? && step(before.value, steps[n]).Some?
      && After(step, s, steps[..n + 1]) == step(before.value, steps[n])
  {
    PrefixRuns(step, s, steps, n + 1);
    assert steps[..n + 1][..n] == steps[..n];
  }
}
