/** Event traces: which service ran in each tick (the `events` array of the scheduler), counted per job window.
    Everything about a schedule that does not depend on how it was chosen is stated here. */
module Trace {
  import opened Arith

  /** A periodic service: period and run time. Its deadline is its period. */
  datatype Task = Task(T: int, C: int)

  /** The value of events[t] when nothing ran. */
  const IDLE: int := -1

  /** All periods positive, all run times natural. */
  predicate Wf(ts: seq<Task>) {
    forall i :: 0 <= i < |ts| ==> ts[i].T >= 1 && ts[i].C >= 0
  }

  /** How many of the ticks a .. b-1 ran `v`. */
  function Count(ev: seq<int>, v: int, a: int, b: int): nat
    requires 0 <= a && b <= |ev|
    decreases b
  {
    if b <= a then 0 else Count(ev, v, a, b - 1) + (if ev[b - 1] == v then 1 else 0)
  }

  /** The release time of the job that is current at tick `t`. */
  function Release(T: int, t: nat): (r: nat)
    requires T >= 1
    ensures r <= t < r + T && r % T == 0
  {
    DivModUnique(t - t % T, T, t / T, 0);
    t - t % T
  }

  /** Service `i` still has work to do at tick `t`. */
  predicate Pending(ts: seq<Task>, ev: seq<int>, i: int, t: nat)
    requires Wf(ts) && 0 <= i < |ts| && t <= |ev|
  {
    Count(ev, i, Release(ts[i].T, t), t) < ts[i].C
  }

  /** The absolute deadline of the job of `i` that is current at tick `t`. */
  function AbsDeadline(ts: seq<Task>, i: int, t: nat): nat
    requires Wf(ts) && 0 <= i < |ts|
  {
    Release(ts[i].T, t) + ts[i].T
  }

  /** Every tick is idle or runs a service that has work left. */
  predicate Legal(ts: seq<Task>, ev: seq<int>)
    requires Wf(ts)
  {
    forall t :: 0 <= t < |ev| ==> ev[t] == IDLE || (0 <= ev[t] < |ts| && Pending(ts, ev, ev[t], t))
  }

  /** No tick idles while some service has work left. */
  predicate WorkConserving(ts: seq<Task>, ev: seq<int>)
    requires Wf(ts)
  {
    forall t, i :: 0 <= t < |ev| && 0 <= i < |ts| && ev[t] == IDLE ==> !Pending(ts, ev, i, t)
  }

  /** The only work over which a tick idles is that of services with period `top`, at their release. */
  predicate ConservingBut(ts: seq<Task>, ev: seq<int>, top: int)
    requires Wf(ts) && top >= 1
  {
    forall t, i :: 0 <= t < |ev| && 0 <= i < |ts| && ev[t] == IDLE && Pending(ts, ev, i, t) ==>
      ts[i].T == top && t % top == 0
  }

  /** Some job of `i` has its deadline at `d`. */
  predicate DueAt(ts: seq<Task>, i: int, d: int)
    requires Wf(ts)
  {
    0 <= i < |ts| && ts[i].T <= d && d % ts[i].T == 0
  }

  /** The job of `i` that is due at `d` has received its full run time. */
  predicate Complete(ts: seq<Task>, ev: seq<int>, i: int, d: int)
    requires Wf(ts) && DueAt(ts, i, d) && d <= |ev|
  {
    Count(ev, i, d - ts[i].T, d) == ts[i].C
  }

  /** Every job whose deadline is at most `n` has received its full run time. */
  ghost predicate MetBy(ts: seq<Task>, ev: seq<int>, n: int)
    requires Wf(ts) && n <= |ev|
  {
    forall i, d :: DueAt(ts, i, d) && d <= n ==> Complete(ts, ev, i, d)
  }

  /** The part of `MetBy` that concerns service `i`. */
  ghost predicate MetFor(ts: seq<Task>, ev: seq<int>, i: int, n: int)
    requires Wf(ts) && n <= |ev| && 0 <= i < |ts|
  {
    forall d :: DueAt(ts, i, d) && d <= n ==> Complete(ts, ev, i, d)
  }

  // ----- counting -----

  lemma {:induction false} CountSplit(ev: seq<int>, v: int, a: int, b: int, c: int)
    requires 0 <= a <= b <= c <= |ev|
    ensures Count(ev, v, a, c) == Count(ev, v, a, b) + Count(ev, v, b, c)
    decreases c
  {
    if b < c {
      CountSplit(ev, v, a, b, c - 1);
    }
  }

  lemma {:induction false} CountBound(ev: seq<int>, v: int, a: int, b: int)
    requires 0 <= a <= b <= |ev|
    ensures Count(ev, v, a, b) <= b - a
    decreases b
  {
    if a < b {
      CountBound(ev, v, a, b - 1);
    }
  }

  lemma {:induction false} CountSame(ev: seq<int>, ev': seq<int>, v: int, a: int, b: int)
    requires 0 <= a && b <= |ev| && b <= |ev'|
    requires forall t :: a <= t < b ==> ev[t] == ev'[t]
    ensures Count(ev, v, a, b) == Count(ev', v, a, b)
    decreases b
  {
    if a < b {
      CountSame(ev, ev', v, a, b - 1);
    }
  }

  lemma {:induction false} CountNone(ev: seq<int>, v: int, a: int, b: int)
    requires 0 <= a && b <= |ev|
    requires forall t :: a <= t < b ==> ev[t] != v
    ensures Count(ev, v, a, b) == 0
    decreases b
  {
    if a < b {
      CountNone(ev, v, a, b - 1);
    }
  }

  lemma {:induction false} CountFind(ev: seq<int>, v: int, a: int, b: int) returns (t: nat)
    requires 0 <= a && b <= |ev| && Count(ev, v, a, b) > 0
    ensures a <= t < b && ev[t] == v
  {
    if ev[b - 1] == v {
      t := b - 1;
    } else {
      t := CountFind(ev, v, a, b - 1);
    }
  }

  lemma {:induction false} CountUpdate(ev: seq<int>, v: int, a: int, b: int, t: nat, w: int)
    requires 0 <= a <= b <= |ev| && t < |ev|
    ensures Count(ev[t := w], v, a, b) == Count(ev, v, a, b)
            + (if a <= t < b && w == v then 1 else 0) - (if a <= t < b && ev[t] == v then 1 else 0)
    decreases b
  {
    if a < b {
      CountUpdate(ev, v, a, b - 1, t, w);
    }
  }

  // ----- windows -----

  /** The window of tick `t` is the only period-aligned window that holds `t`. */
  lemma {:induction false} ReleaseUnique(T: int, t: nat, r: nat)
    requires T >= 1 && r % T == 0 && r <= t < r + T
    ensures Release(T, t) == r
  {
    var q := Release(T, t);
    if q < r {
      MultiplesApart(q, r, T);
    } else if r < q {
      MultiplesApart(r, q, T);
    }
  }

  lemma {:induction false} ReleaseBefore(T: int, t: nat, d: nat)
    requires T >= 1 && d % T == 0 && t < d
    ensures Release(T, t) + T <= d
  {
    MultiplesApart(Release(T, t), d, T);
  }

  lemma {:induction false} ReleaseAfter(T: int, t: nat, e: nat)
    requires T >= 1 && e % T == 0 && e <= t
    ensures e <= Release(T, t)
  {
    if Release(T, t) < e {
      MultiplesApart(Release(T, t), e, T);
    }
  }

  /** In a legal trace no job ever gets more than its run time. */
  lemma {:induction false} LegalCap(ts: seq<Task>, ev: seq<int>, i: int, r: nat, b: nat)
    requires Wf(ts) && Legal(ts, ev) && 0 <= i < |ts|
    requires r % ts[i].T == 0 && r <= b <= r + ts[i].T && b <= |ev|
    ensures Count(ev, i, r, b) <= ts[i].C
    decreases b
  {
    if r < b {
      LegalCap(ts, ev, i, r, b - 1);
      if ev[b - 1] == i {
        ReleaseUnique(ts[i].T, b - 1, r);
      }
    }
  }

  lemma {:induction false} ReleaseNext(T: int, t: nat)
    requires T >= 1
    ensures (Release(T, t) + T) % T == 0
    ensures Release(T, t) >= T ==> (Release(T, t) - T) % T == 0
  {
    var r := Release(T, t);
    DivModUnique(r + T, T, r / T + 1, 0);
    DivModUnique(r - T, T, r / T - 1, 0);
  }

  lemma {:induction false} AddWindow(n: nat, n': nat, C: nat, T: nat, x: nat, y: nat)
    requires n * T <= C * x && n' <= n + C && x + T <= y
    ensures n' * T <= C * y
  {
  }

  /** Ticks [a, d) run `j` only inside windows that lie wholly inside [a, d). */
  predicate Contained(ts: seq<Task>, ev: seq<int>, j: int, a: nat, d: nat)
    requires Wf(ts) && 0 <= j < |ts| && a <= d <= |ev|
  {
    forall u :: a <= u < d && ev[u] == j ==>
      a <= Release(ts[j].T, u) && Release(ts[j].T, u) + ts[j].T <= d
  }

  /** Contained work of `j` is at most its share of the interval. */
  lemma {:induction false} WindowDemand(ts: seq<Task>, ev: seq<int>, j: int, a: nat, d: nat)
    requires Wf(ts) && Legal(ts, ev) && 0 <= j < |ts| && a <= d <= |ev|
    requires Contained(ts, ev, j, a, d)
    ensures Count(ev, j, a, d) * ts[j].T <= ts[j].C * (d - a)
    decreases d
  {
    var T, C := ts[j].T, ts[j].C;
    if Count(ev, j, a, d) == 0 {
      MulLe(0, d - a, C);
    } else {
      var s := LastWindow(ts, ev, j, a, d);
      WindowDemand(ts, ev, j, a, s);
      AddWindow(Count(ev, j, a, s), Count(ev, j, a, d), C, T, s - a, d - a);
    }
  }

  /** Splitting off the last window. */
  lemma {:induction false} LastWindow(ts: seq<Task>, ev: seq<int>, j: int, a: nat, d: nat) returns (s: nat)
    requires Wf(ts) && Legal(ts, ev) && 0 <= j < |ts| && a <= d <= |ev|
    requires Contained(ts, ev, j, a, d) && Count(ev, j, a, d) > 0
    ensures a <= s && s + ts[j].T <= d && Contained(ts, ev, j, a, s)
    ensures Count(ev, j, a, d) <= Count(ev, j, a, s) + ts[j].C
  {
    var T := ts[j].T;
    var u0 := CountFind(ev, j, a, d);
    ReleaseNext(T, u0);
    var e := Release(T, d);
    ReleaseAfter(T, d, Release(T, u0) + T);
    ReleaseNext(T, d);
    s := e - T;
    forall u | e <= u < d ensures ev[u] != j {
      ReleaseAfter(T, u, e);
    }
    CountNone(ev, j, e, d);
    CountSplit(ev, j, a, e, d);
    CountSplit(ev, j, a, s, e);
    LegalCap(ts, ev, j, s, e);
    forall u | a <= u < s ensures Release(T, u) + T <= s {
      ReleaseBefore(T, u, s);
    }
  }

  /** A service that never missed up to `n`, the end of a window, ran C ticks in each of its n / T windows. */
  lemma {:induction false} FullLoad(ts: seq<Task>, f: seq<int>, i: int, n: nat)
    requires Wf(ts) && 0 <= i < |ts| && n <= |f| && MetFor(ts, f, i, n) && n % ts[i].T == 0
    ensures Count(f, i, 0, n) == ts[i].C * (n / ts[i].T)
    decreases n
  {
    var T := ts[i].T;
    if n >= T {
      var s := n - T;
      DivModUnique(s, T, n / T - 1, 0);
      FullLoad(ts, f, i, s);
      assert Complete(ts, f, i, n);
      CountSplit(f, i, 0, s, n);
      assert ts[i].C * (n / T) == ts[i].C * (n / T - 1) + ts[i].C;
    } else {
      DivModUnique(n, T, 0, n);
    }
  }
}
