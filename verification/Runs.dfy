/** Runs of a step system: from one state, one step after the other. */
module Runs {

  /** No thread owns the mutex. */
  const FREE := -1

  ghost predicate IsRun<S(!new)>(run: seq<S>, init: S, step: (S, S) -> bool) {
    if |run| <= 1 then run == [init]
    else IsRun(run[..|run| - 1], init, step) && step(run[|run| - 2], run[|run| - 1])
  }

  /** The last state of some run. */
  ghost predicate Reached<S(!new)>(s: S, init: S, step: (S, S) -> bool) {
    exists run :: IsRun(run, init, step) && run != [] && run[|run| - 1] == s
  }

  lemma ReachedInit<S(!new)>(init: S, step: (S, S) -> bool)
    ensures Reached(init, init, step)
  {
    assert IsRun([init], init, step);
  }

  lemma ReachedNext<S(!new)>(s: S, s': S, init: S, step: (S, S) -> bool)
    requires Reached(s, init, step) && step(s, s')
    ensures Reached(s', init, step)
  {
    var run :| IsRun(run, init, step) && run != [] && run[|run| - 1] == s;
    var longer := run + [s'];
    assert longer[..|longer| - 1] == run;
    assert IsRun(longer, init, step);
  }

  /** The predicate holds at the start and every step keeps it. */
  ghost predicate Inductive<S(!new)>(inv: S -> bool, init: S, step: (S, S) -> bool) {
    inv(init) && forall s, s' | inv(s) && step(s, s') :: inv(s')
  }

  lemma {:induction false} RunKeeps<S(!new)>(run: seq<S>, init: S, step: (S, S) -> bool, inv: S -> bool)
    requires IsRun(run, init, step) && Inductive(inv, init, step)
    ensures run != [] && inv(run[|run| - 1])
  {
    var n := |run| - 1;
    if n > 0 {
      RunKeeps(run[..n], init, step, inv);
      assert run[..n][n - 1] == run[n - 1];
    }
  }

  /** So it holds in every reachable state. */
  lemma ReachedKeeps<S(!new)>(s: S, init: S, step: (S, S) -> bool, inv: S -> bool)
    requires Reached(s, init, step) && Inductive(inv, init, step)
    ensures inv(s)
  {
    var run :| IsRun(run, init, step) && run != [] && run[|run| - 1] == s;
    RunKeeps(run, init, step, inv);
  }

  /** A run may be continued by another, each of whose steps is a step of the first kind too. */
  lemma ReachedOn<S(!new)>(s: S, middle: S, init: S, step: (S, S) -> bool, few: (S, S) -> bool)
    requires Reached(middle, init, step) && Reached(s, middle, few)
    requires forall a, b | few(a, b) :: step(a, b)
    ensures Reached(s, init, step)
  {
    var inv := (x: S) => Reached(x, init, step);
    forall a, b | inv(a) && few(a, b)
      ensures inv(b)
    {
      ReachedNext(a, b, init, step);
    }
    ReachedKeeps(s, middle, few, inv);
  }

  /** A step and then a run. */
  lemma ReachedFirst<S(!new)>(s: S, first: S, init: S, step: (S, S) -> bool)
    requires step(init, first) && Reached(s, first, step)
    ensures Reached(s, init, step)
  {
    ReachedInit(init, step);
    ReachedNext(init, first, init, step);
    ReachedOn(s, first, init, step, step);
  }
}
