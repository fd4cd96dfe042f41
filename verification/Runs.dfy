/** Runs of a step system, given by what each action makes of a state, or nothing where it cannot
    happen. */
module Runs {
  import opened Wrappers

  /** Every action can happen when its turn comes. */
  ghost predicate Possible<S, A>(step: (S, A) -> Option<S>, s: S, run: seq<A>)
    decreases |run|
  {
    run == [] || (step(s, run[0]).Some? && Possible(step, step(s, run[0]).value, run[1..]))
  }

  ghost function After<S, A>(step: (S, A) -> Option<S>, s: S, run: seq<A>): S
    requires Possible(step, s, run)
    decreases |run|
  {
    if run == [] then s else After(step, step(s, run[0]).value, run[1..])
  }

  /** What every action of a kind keeps, a run of such actions keeps. */
  lemma {:induction false} Keeps<S, A>(step: (S, A) -> Option<S>, inv: S -> bool, kind: A -> bool, s: S, run: seq<A>)
    requires inv(s) && Possible(step, s, run) && forall k | 0 <= k < |run| :: kind(run[k])
    requires forall t, a :: inv(t) && kind(a) && step(t, a).Some? ==> inv(step(t, a).value)
    ensures inv(After(step, s, run))
    decreases |run|
  {
    if run != [] {
      assert kind(run[0]);
      Keeps(step, inv, kind, step(s, run[0]).value, run[1..]);
    }
  }

  lemma {:induction false} OneMore<S, A>(step: (S, A) -> Option<S>, s: S, run: seq<A>, a: A)
    requires Possible(step, s, run) && step(After(step, s, run), a).Some?
    ensures Possible(step, s, run + [a]) && After(step, s, run + [a]) == step(After(step, s, run), a).value
    decreases |run|
  {
    if run == [] {
      assert [a][1..] == [];
    } else {
      OneMore(step, step(s, run[0]).value, run[1..], a);
      assert (run + [a])[1..] == run[1..] + [a];
    }
  }
}
