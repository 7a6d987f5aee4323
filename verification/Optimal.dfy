/** Optimality of EDF and LLF over a hyperperiod, by exchanging ticks. */
module Optimal {
  import opened Trace
  import opened Utilization

  /** The source's laxity, Deadline - (Cruntime - Runtime), in terms of the trace. */
  function Laxity(ts: seq<Task>, ev: seq<int>, i: int, t: nat): int
    requires Wf(ts) && 0 <= i < |ts| && t <= |ev|
  {
    AbsDeadline(ts, i, t) - t - (ts[i].C - Count(ev, i, Release(ts[i].T, t), t))
  }

  /** Running `p` rather than `q` at tick `t` can be justified by its deadline or by its laxity. */
  predicate Dominates(ts: seq<Task>, ev: seq<int>, p: int, q: int, t: nat)
    requires Wf(ts) && 0 <= p < |ts| && 0 <= q < |ts| && t <= |ev|
  {
    AbsDeadline(ts, p, t) <= AbsDeadline(ts, q, t) || Laxity(ts, ev, p, t) <= Laxity(ts, ev, q, t)
  }

  /** A tick that runs something runs a service that dominates every pending one. EDF and LLF both do. */
  predicate UrgencyRule(ts: seq<Task>, ev: seq<int>)
    requires Wf(ts) && Legal(ts, ev)
  {
    forall t, i :: 0 <= t < |ev| && ev[t] != IDLE && 0 <= i < |ts| && Pending(ts, ev, i, t) ==>
      Dominates(ts, ev, ev[t], i, t)
  }

  /** Any choice of services, tick by tick, that finishes every job of the hyperperiod in time. */
  ghost predicate Feasible(ts: seq<Task>, f: seq<int>)
    requires Wf(ts)
  {
    && (forall t :: 0 <= t < |f| ==> f[t] == IDLE || 0 <= f[t] < |ts|)
    && MetBy(ts, f, |f|)
  }

  /** In a feasible choice each window holds exactly the run time of its service. */
  lemma {:induction false} WindowFull(ts: seq<Task>, f: seq<int>, i: int, t: nat)
    requires Wf(ts) && Feasible(ts, f) && 0 <= i < |ts| && |f| % ts[i].T == 0 && t < |f|
    ensures AbsDeadline(ts, i, t) <= |f|
    ensures Count(f, i, Release(ts[i].T, t), AbsDeadline(ts, i, t)) == ts[i].C
    ensures Count(f, i, t, AbsDeadline(ts, i, t)) == ts[i].C - Count(f, i, Release(ts[i].T, t), t)
  {
    var T := ts[i].T;
    var r, d := Release(T, t), AbsDeadline(ts, i, t);
    ReleaseBefore(T, t, |f|);
    ReleaseNext(T, t);
    assert Complete(ts, f, i, d);
    CountSplit(f, i, r, t, d);
  }

  /** A service that a feasible choice runs at `t` is pending at `t`. */
  lemma {:induction false} FeasiblePending(ts: seq<Task>, f: seq<int>, t: nat)
    requires Wf(ts) && Feasible(ts, f) && t < |f| && f[t] != IDLE && |f| % ts[f[t]].T == 0
    ensures Pending(ts, f, f[t], t)
  {
    WindowFull(ts, f, f[t], t);
    CountSplit(f, f[t], t, t + 1, AbsDeadline(ts, f[t], t));
  }

  /** Exchanging two ticks of one window of each service involved keeps a choice feasible. */
  lemma {:induction false} SwapFeasible(ts: seq<Task>, f: seq<int>, t: nat, u: nat) returns (g: seq<int>)
    requires Wf(ts) && Feasible(ts, f) && t <= u < |f|
    requires f[t] != IDLE ==> u < AbsDeadline(ts, f[t], t)
    requires f[u] != IDLE ==> u < AbsDeadline(ts, f[u], t)
    ensures g == f[t := f[u]][u := f[t]] && Feasible(ts, g)
  {
    var h := f[t := f[u]];
    g := h[u := f[t]];
    forall i, d | DueAt(ts, i, d) && d <= |g| ensures Complete(ts, g, i, d)
    {
      var r := d - ts[i].T;
      CountUpdate(f, i, r, d, t, f[u]);
      CountUpdate(h, i, r, d, u, f[t]);
      assert Complete(ts, f, i, d);
      if f[t] == i || f[u] == i {
        SameWindow(ts[i].T, t, u, d);
      }
    }
  }

  lemma {:induction false} SameWindow(T: int, t: nat, u: nat, d: nat)
    requires T >= 1 && t <= u < Release(T, t) + T && d % T == 0 && d >= T
    ensures d - T <= t < d <==> d - T <= u < d
  {
    var r := Release(T, t);
    ReleaseUnique(T, u, r);
    ReleaseUnique(T, d, d);
    ReleaseNext(T, d);
    if d - T <= t < d {
      ReleaseUnique(T, t, d - T);
    }
    if d - T <= u < d {
      ReleaseUnique(T, u, d - T);
    }
  }

  /** A pending service that dominates `q` runs again, in any feasible choice, before `q` is due. */
  lemma {:induction false} LaterTick(ts: seq<Task>, f: seq<int>, p: int, t: nat) returns (u: nat)
    requires Wf(ts) && Feasible(ts, f) && t < |f| && 0 <= p < |ts| && IsHyper(ts, |f|)
    requires Pending(ts, f, p, t)
    requires f[t] != IDLE ==> Dominates(ts, f, p, f[t], t)
    ensures t <= u < |f| && f[u] == p && u < AbsDeadline(ts, p, t)
    ensures f[t] != IDLE ==> u < AbsDeadline(ts, f[t], t)
  {
    WindowFull(ts, f, p, t);
    var d := AbsDeadline(ts, p, t);
    if f[t] != IDLE && AbsDeadline(ts, f[t], t) < d {
      var e := AbsDeadline(ts, f[t], t);
      FeasiblePending(ts, f, t);
      CountSplit(f, p, t, e, d);
      CountBound(f, p, e, d);
      u := CountFind(f, p, t, e);
    } else {
      u := CountFind(f, p, t, d);
    }
  }

  lemma {:induction false} SamePrefix(ts: seq<Task>, f: seq<int>, ev: seq<int>, i: int, t: nat)
    requires Wf(ts) && 0 <= i < |ts| && t <= |f| && t <= |ev| && f[..t] == ev[..t]
    ensures Count(f, i, Release(ts[i].T, t), t) == Count(ev, i, Release(ts[i].T, t), t)
  {
    forall k | 0 <= k < t ensures f[k] == ev[k] { assert f[k] == f[..t][k] && ev[k] == ev[..t][k]; }
    CountSame(f, ev, i, Release(ts[i].T, t), t);
  }

  /** One step of the exchange argument: a feasible choice that agrees with the policy up to `t`
      becomes one that agrees up to `t + 1`. */
  lemma {:induction false} ExchangeStep(ts: seq<Task>, ev: seq<int>, f: seq<int>, t: nat) returns (g: seq<int>)
    requires Wf(ts) && Legal(ts, ev) && WorkConserving(ts, ev) && UrgencyRule(ts, ev)
    requires Feasible(ts, f) && IsHyper(ts, |f|) && |f| == |ev| && t < |f| && f[..t] == ev[..t]
    ensures Feasible(ts, g) && |g| == |f| && g[..t + 1] == ev[..t + 1]
  {
    var p := ev[t];
    forall i | 0 <= i < |ts| ensures Pending(ts, f, i, t) == Pending(ts, ev, i, t)
                             ensures Laxity(ts, f, i, t) == Laxity(ts, ev, i, t) {
      SamePrefix(ts, f, ev, i, t);
    }
    if f[t] != IDLE {
      FeasiblePending(ts, f, t);
    }
    if p == f[t] {
      g := f;
    } else {
      var u := LaterTick(ts, f, p, t);
      g := SwapFeasible(ts, f, t, u);
      assert g[..t] == f[..t];
    }
    assert g[..t + 1] == g[..t] + [g[t]] && ev[..t + 1] == ev[..t] + [ev[t]];
  }

  /** Optimality: if any choice of services finishes every job of a hyperperiod in time,
      every work-conserving trace that follows the urgency rule does too. */
  lemma {:induction false} UrgencyOptimal(ts: seq<Task>, ev: seq<int>, f: seq<int>, t: nat)
    requires Wf(ts) && Legal(ts, ev) && WorkConserving(ts, ev) && UrgencyRule(ts, ev)
    requires Feasible(ts, f) && IsHyper(ts, |f|) && |f| == |ev| && t <= |f| && f[..t] == ev[..t]
    ensures Feasible(ts, ev)
    decreases |f| - t
  {
    if t == |f| {
      assert f == f[..t] && ev == ev[..t];
    } else {
      var g := ExchangeStep(ts, ev, f, t);
      UrgencyOptimal(ts, ev, g, t + 1);
    }
  }

  lemma {:induction false} TotalLoad(ts: seq<Task>, f: seq<int>, n: nat)
    requires Wf(ts) && IsHyper(ts, |f|) && MetBy(ts, f, |f|) && n <= |ts|
    ensures Total(f, n, 0, |f|) == Util(ts, n, |f|)
  {
    if n > 0 {
      TotalLoad(ts, f, n - 1);
      FullLoad(ts, f, n - 1, |f|);
    }
  }

  /** A feasible choice exists only when utilisation is at most one. */
  lemma {:induction false} FeasibleUtil(ts: seq<Task>, f: seq<int>)
    requires Wf(ts) && IsHyper(ts, |f|) && Feasible(ts, f)
    ensures Util(ts, |ts|, |f|) <= |f|
  {
    TotalLoad(ts, f, |ts|);
    TotalPlusIdle(f, |ts|, 0, |f|);
  }
}
