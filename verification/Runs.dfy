/** Runs of a transition system given by its step function. */
module Runs {
  function RunFrom<S, T>(apply: (S, T) -> S, s: S, steps: seq<T>): S
    decreases |steps|
  {
    if steps == [] then s else RunFrom(apply, apply(s, steps[0]), steps[1..])
  }

  lemma {:induction false} RunConcat<S, T>(apply: (S, T) -> S, s: S, x: seq<T>, y: seq<T>)
    ensures RunFrom(apply, s, x + y) == RunFrom(apply, RunFrom(apply, s, x), y)
    decreases |x|
  {
    if x == [] {
      assert x + y == y;
    } else {
      assert (x + y)[1..] == x[1..] + y;
      RunConcat(apply, apply(s, x[0]), x[1..], y);
    }
  }

  /** What every step keeps holds after every run. */
  lemma {:induction false} Preserved<S(!new), T(!new)>(apply: (S, T) -> S, inv: S -> bool, s: S, steps: seq<T>)
    requires inv(s) && forall r, x | inv(r) :: inv(apply(r, x))
    ensures inv(RunFrom(apply, s, steps))
    decreases |steps|
  {
    if steps != [] {
      Preserved(apply, inv, apply(s, steps[0]), steps[1..]);
    }
  }

  /** What no step lowers is not lower after any run. */
  lemma {:induction false} NeverFalls<S(!new), T(!new)>(apply: (S, T) -> S, size: S -> int, s: S, steps: seq<T>)
    requires forall r, x :: size(r) <= size(apply(r, x))
    ensures size(s) <= size(RunFrom(apply, s, steps))
    decreases |steps|
  {
    if steps != [] {
      NeverFalls(apply, size, apply(s, steps[0]), steps[1..]);
    }
  }

  /** Short runs, step by step. */
  lemma Two<S, T>(apply: (S, T) -> S, s: S, a: T, b: T)
    ensures RunFrom(apply, s, [a, b]) == apply(apply(s, a), b)
  {
    OneMore(apply, s, [], a);
    OneMore(apply, s, [a], b);
    assert [] + [a] == [a] && [a] + [b] == [a, b];
  }

  lemma Three<S, T>(apply: (S, T) -> S, s: S, a: T, b: T, c: T)
    ensures RunFrom(apply, s, [a, b, c]) == apply(apply(apply(s, a), b), c)
  {
    Two(apply, s, a, b);
    OneMore(apply, s, [a, b], c);
    assert [a, b] + [c] == [a, b, c];
  }

  lemma Four<S, T>(apply: (S, T) -> S, s: S, a: T, b: T, c: T, d: T)
    ensures RunFrom(apply, s, [a, b, c, d]) == apply(apply(apply(apply(s, a), b), c), d)
  {
    Three(apply, s, a, b, c);
    OneMore(apply, s, [a, b, c], d);
    assert [a, b, c] + [d] == [a, b, c, d];
  }

  lemma OneMore<S, T>(apply: (S, T) -> S, s: S, steps: seq<T>, x: T)
    ensures RunFrom(apply, s, steps + [x]) == apply(RunFrom(apply, s, steps), x)
  {
    RunConcat(apply, s, steps, [x]);
    assert [x][1..] == [];
  }
}
