/** Repeated application of a step function. */
module Runs {
  function Iterate<T>(step: T -> T, x: T, n: nat): T {
    if n == 0 then x else step(Iterate(step, x, n - 1))
  }

  /** One state is a later moment of another. */
  ghost predicate Reaches<T>(step: T -> T, from: T, to: T) {
    exists n: nat :: Iterate(step, from, n) == to
  }

  lemma ReachesSelf<T>(step: T -> T, x: T)
    ensures Reaches(step, x, x)
  {
    assert Iterate(step, x, 0) == x;
  }

  lemma ReachesNext<T>(step: T -> T, from: T, mid: T)
    requires Reaches(step, from, mid)
    ensures Reaches(step, from, step(mid))
  {
    var n: nat :| Iterate(step, from, n) == mid;
    assert Iterate(step, from, n + 1) == step(mid);
  }

  lemma {:induction false} IterateAdd<T>(step: T -> T, x: T, m: nat, n: nat)
    ensures Iterate(step, Iterate(step, x, m), n) == Iterate(step, x, m + n)
  {
    if n > 0 {
      IterateAdd(step, x, m, n - 1);
    }
  }

  lemma ReachesTransitive<T>(step: T -> T, a: T, b: T, c: T)
    requires Reaches(step, a, b) && Reaches(step, b, c)
    ensures Reaches(step, a, c)
  {
    var m: nat :| Iterate(step, a, m) == b;
    var n: nat :| Iterate(step, b, n) == c;
    IterateAdd(step, a, m, n);
  }

  /** What every step keeps holds at every later moment. */
  lemma ReachesInvariant<T(!new)>(step: T -> T, inv: T -> bool, from: T, to: T)
    requires Reaches(step, from, to) && inv(from)
    requires forall x :: inv(x) ==> inv(step(x))
    ensures inv(to)
  {
    var n: nat :| Iterate(step, from, n) == to;
    IterateInvariant(step, inv, from, n);
  }

  lemma {:induction false} IterateInvariant<T(!new)>(step: T -> T, inv: T -> bool, x: T, n: nat)
    requires inv(x)
    requires forall x :: inv(x) ==> inv(step(x))
    ensures inv(Iterate(step, x, n))
  {
    if n > 0 {
      IterateInvariant(step, inv, x, n - 1);
    }
  }

  /** What no step changes is the same at every later moment. */
  lemma ReachesKeeps<T(!new), R>(step: T -> T, observe: T -> R, from: T, to: T)
    requires Reaches(step, from, to)
    requires forall x :: observe(step(x)) == observe(x)
    ensures observe(to) == observe(from)
  {
    var n: nat :| Iterate(step, from, n) == to;
    IterateKeeps(step, observe, from, n);
  }

  lemma {:induction false} IterateKeeps<T(!new), R>(step: T -> T, observe: T -> R, x: T, n: nat)
    requires forall x :: observe(step(x)) == observe(x)
    ensures observe(Iterate(step, x, n)) == observe(x)
  {
    if n > 0 {
      IterateKeeps(step, observe, x, n - 1);
    }
  }
}
