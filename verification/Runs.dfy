/** Runs of a transition relation, and induction over them. */
module Runs {

  /** Each state comes from the one before by one step. */
  ghost predicate IsRun<T(!new)>(step: (T, T) -> bool, run: seq<T>) {
    forall i :: 0 <= i < |run| - 1 ==> step(run[i], run[i + 1])
  }

  /** What every step keeps, every run keeps. */
  lemma {:induction false} Invariant<T(!new)>(step: (T, T) -> bool, inv: T -> bool, run: seq<T>, i: nat, j: nat)
    requires IsRun(step, run) && i <= j < |run| && inv(run[i])
    requires forall a, b :: inv(a) && step(a, b) ==> inv(b)
    ensures inv(run[j])
    decreases j - i
  {
    if i < j {
      assert step(run[i], run[i + 1]);
      Invariant(step, inv, run, i + 1, j);
    }
  }

  /** A reflexive and transitive relation that every step obeys relates any two states of a run. */
  lemma {:induction false} Relation<T(!new)>(step: (T, T) -> bool, rel: (T, T) -> bool, run: seq<T>, i: nat, j: nat)
    requires IsRun(step, run) && i <= j < |run|
    requires forall a, b :: step(a, b) ==> rel(a, b)
    requires forall a :: rel(a, a)
    requires forall a, b, c :: rel(a, b) && rel(b, c) ==> rel(a, c)
    ensures rel(run[i], run[j])
    decreases j - i
  {
    if i < j {
      assert step(run[i], run[i + 1]);
      Relation(step, rel, run, i + 1, j);
    }
  }
}
