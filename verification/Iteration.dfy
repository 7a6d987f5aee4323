/** Iterating a step function, and summing an observation along the way. */
module Iteration {

  function Iterate<X>(f: X -> X, x: X, n: nat): X {
    if n == 0 then x else f(Iterate(f, x, n - 1))
  }

  function SumAlong<X>(f: X -> X, g: X -> nat, x: X, n: nat): nat {
    if n == 0 then 0 else SumAlong(f, g, x, n - 1) + g(Iterate(f, x, n - 1))
  }

  lemma {:induction false} IterateRepeats<X>(f: X -> X, x: X, h: nat, n: nat)
    requires Iterate(f, x, h) == x
    ensures Iterate(f, x, n + h) == Iterate(f, x, n)
    decreases n
  {
    if n > 0 {
      IterateRepeats(f, x, h, n - 1);
    }
  }

  lemma {:induction false} SumRepeats<X>(f: X -> X, g: X -> nat, x: X, h: nat, n: nat)
    requires Iterate(f, x, h) == x
    ensures SumAlong(f, g, x, n + h) == SumAlong(f, g, x, n) + SumAlong(f, g, x, h)
    decreases n
  {
    if n > 0 {
      SumRepeats(f, g, x, h, n - 1);
      IterateRepeats(f, x, h, n - 1);
    }
  }

  lemma {:induction false} SumGrows<X>(f: X -> X, g: X -> nat, x: X, m: nat, n: nat)
    requires m <= n
    ensures SumAlong(f, g, x, m) <= SumAlong(f, g, x, n)
    decreases n
  {
    if m < n {
      SumGrows(f, g, x, m, n - 1);
    }
  }

  /** A step that returns to its start after h >= 1 steps: a clean round keeps every longer run clean. */
  lemma {:induction false} CleanRound<X>(f: X -> X, g: X -> nat, x: X, h: nat, n: nat)
    requires h >= 1 && Iterate(f, x, h) == x && SumAlong(f, g, x, h) == 0
    ensures SumAlong(f, g, x, n) == 0
    decreases n
  {
    if n <= h {
      SumGrows(f, g, x, n, h);
    } else {
      CleanRound(f, g, x, h, n - h);
      SumRepeats(f, g, x, h, n - h);
    }
  }
}
