/** Fixed priority by index: the critical instant and exact response times. */
module Rm {
  import opened Arith
  import opened Trace
  import opened Utilization
  import opened Demand

  /** A tick that runs something runs the pending service with the smallest index. */
  predicate RmRule(ts: seq<Task>, ev: seq<int>)
    requires Wf(ts) && Legal(ts, ev)
  {
    forall t, i :: 0 <= t < |ev| && ev[t] != IDLE && 0 <= i < |ts| && Pending(ts, ev, i, t) ==> ev[t] <= i
  }

  /** Some service before `i` is pending at `t`. */
  predicate HigherPending(ts: seq<Task>, ev: seq<int>, i: int, t: nat)
    requires Wf(ts) && 0 <= i < |ts| && t <= |ev|
  {
    exists j :: 0 <= j < i && Pending(ts, ev, j, t)
  }

  /** No work of `j` is carried over from before tick `s`. */
  predicate NoCarry(ts: seq<Task>, ev: seq<int>, j: int, s: nat)
    requires Wf(ts) && 0 <= j < |ts| && s <= |ev|
  {
    s == 0 || !Pending(ts, ev, j, s - 1)
  }

  /** The start of the stretch before `t` in which a service before `i` was always pending. */
  lemma {:induction false} LevelStart(ts: seq<Task>, ev: seq<int>, i: int, t: nat) returns (s: nat)
    requires Wf(ts) && 0 <= i < |ts| && t <= |ev|
    ensures s <= t && forall u :: s <= u < t ==> HigherPending(ts, ev, i, u)
    ensures forall j :: 0 <= j < i ==> NoCarry(ts, ev, j, s)
  {
    s := t;
    while s > 0 && HigherPending(ts, ev, i, s - 1)
      invariant s <= t && forall u :: s <= u < t ==> HigherPending(ts, ev, i, u)
    {
      s := s - 1;
    }
  }

  /** Work of `j` from one of its releases on is bounded by the releases in the interval. */
  lemma {:induction false} ReleasedDemand(ts: seq<Task>, ev: seq<int>, j: int, k: nat, e: nat)
    requires Wf(ts) && Legal(ts, ev) && 0 <= j < |ts| && k % ts[j].T == 0 && k <= e <= |ev|
    ensures Count(ev, j, k, e) <= CeilDiv(e - k, ts[j].T) * ts[j].C
    decreases e - k
  {
    var T := ts[j].T;
    if e - k < T {
      LegalCap(ts, ev, j, k, e);
      if k < e {
        CeilDivMono(1, e - k, T);
        MulLe(1, CeilDiv(e - k, T), ts[j].C);
      }
    } else {
      ReleaseUnique(T, k, k);
      ReleaseNext(T, k);
      LegalCap(ts, ev, j, k, k + T);
      ReleasedDemand(ts, ev, j, k + T, e);
      CountSplit(ev, j, k, k + T, e);
      OneMoreWindow(e - k, T, ts[j].C);
    }
  }

  lemma {:induction false} OneMoreWindow(y: nat, T: int, C: int)
    requires T >= 1 && y >= T
    ensures CeilDiv(y, T) * C == CeilDiv(y - T, T) * C + C
  {
  }

  /** After a tick at which `j` is not pending, its current job runs no more. */
  lemma {:induction false} CurrentJobOver(ts: seq<Task>, ev: seq<int>, j: int, t: nat, m: nat)
    requires Wf(ts) && Legal(ts, ev) && 0 <= j < |ts| && t <= m <= |ev| && !Pending(ts, ev, j, t)
    requires m <= Release(ts[j].T, t) + ts[j].T
    ensures Count(ev, j, t, m) == 0
  {
    var r := Release(ts[j].T, t);
    LegalCap(ts, ev, j, r, m);
    CountSplit(ev, j, r, t, m);
  }

  /** Without carry-over, work of `j` in an interval is at most its critical-instant demand. */
  lemma {:induction false} CarryFreeDemand(ts: seq<Task>, ev: seq<int>, j: int, s: nat, e: nat)
    requires Wf(ts) && Legal(ts, ev) && 0 <= j < |ts| && s <= e <= |ev| && NoCarry(ts, ev, j, s)
    ensures Count(ev, j, s, e) <= CeilDiv(e - s, ts[j].T) * ts[j].C
  {
    var T := ts[j].T;
    if s == 0 {
      ReleasedDemand(ts, ev, j, 0, e);
    } else {
      var k := Release(T, s - 1) + T;
      var m := if e < k then e else k;
      CurrentJobOver(ts, ev, j, s - 1, m);
      CountSplit(ev, j, s - 1, s, m);
      CountSplit(ev, j, s, m, e);
      ReleaseNext(T, s - 1);
      MulLe(0, CeilDiv(e - s, T), ts[j].C);
      if k < e {
        ReleasedDemand(ts, ev, j, k, e);
        CeilDivMono(e - k, e - s, T);
        MulLe(CeilDiv(e - k, T), CeilDiv(e - s, T), ts[j].C);
      }
    }
  }

  lemma {:induction false} HigherDemand(ts: seq<Task>, ev: seq<int>, n: nat, s: nat, e: nat)
    requires Wf(ts) && Legal(ts, ev) && n <= |ts| && s <= e <= |ev|
    requires forall j :: 0 <= j < n ==> NoCarry(ts, ev, j, s)
    ensures Total(ev, n, s, e) <= Interference(ts, n, e - s)
  {
    if n > 0 {
      HigherDemand(ts, ev, n - 1, s, e);
      CarryFreeDemand(ts, ev, n - 1, s, e);
    }
  }

  /** If the job of `i` released at `r` is unfinished after `x` ticks, [s, r + x) only ran services up to `i`. */
  lemma {:induction false} LevelBusy(ts: seq<Task>, ev: seq<int>, i: nat, s: nat, r: nat, x: nat)
    requires Wf(ts) && Legal(ts, ev) && WorkConserving(ts, ev) && RmRule(ts, ev)
    requires i < |ts| && r % ts[i].T == 0 && s <= r && x <= ts[i].T && r + x <= |ev|
    requires forall u :: s <= u < r ==> HigherPending(ts, ev, i, u)
    requires Count(ev, i, r, r + x) < ts[i].C
    ensures forall u :: s <= u < r ==> 0 <= ev[u] < i
    ensures forall u :: r <= u < r + x ==> 0 <= ev[u] <= i
  {
    forall u | s <= u < r ensures 0 <= ev[u] < i {
      assert HigherPending(ts, ev, i, u);
    }
    forall u | r <= u < r + x ensures 0 <= ev[u] <= i {
      ReleaseUnique(ts[i].T, u, r);
      CountSplit(ev, i, r, u, r + x);
      assert Pending(ts, ev, i, u);
    }
  }

  /** Critical instant: if the demand at level `i` fits in `x` ticks, every job of `i` finishes within
      `x` ticks of its release, whatever happens to the other services. */
  lemma {:induction false} ResponseWithin(ts: seq<Task>, ev: seq<int>, i: nat, r: nat, x: nat)
    requires Wf(ts) && Legal(ts, ev) && WorkConserving(ts, ev) && RmRule(ts, ev)
    requires i < |ts| && r % ts[i].T == 0 && 1 <= x <= ts[i].T && r + x <= |ev|
    requires Level(ts, i, x) <= x
    ensures Count(ev, i, r, r + x) == ts[i].C
  {
    LegalCap(ts, ev, i, r, r + x);
    if Count(ev, i, r, r + x) < ts[i].C {
      var s := LevelStart(ts, ev, i, r);
      LevelBusy(ts, ev, i, s, r, x);
      var e := s + x;
      TotalPlusIdle(ev, i + 1, s, e);
      CountNone(ev, IDLE, s, e);
      HigherDemand(ts, ev, i, s, e);
      if e <= r {
        CountNone(ev, i, s, e);
      } else {
        CountSplit(ev, i, s, r, e);
        CountNone(ev, i, s, r);
        CountSplit(ev, i, r, e, r + x);
      }
      assert false;
    }
  }

  /** `j` is not pending at tick x - 1 and never missed before. */
  ghost predicate Finished(ts: seq<Task>, ev: seq<int>, j: int, x: nat)
    requires Wf(ts) && 0 <= j < |ts| && 1 <= x <= |ev|
  {
    MetFor(ts, ev, j, x - 1) && !Pending(ts, ev, j, x - 1)
  }

  lemma {:induction false} WindowsUpTo(T: int, x: nat, C: nat)
    requires T >= 1 && x >= 1
    ensures CeilDiv(x, T) * C <= C * (Release(T, x - 1) / T) + C
  {
    var q := Release(T, x - 1) / T;
    assert (q + 1) * T == q * T + T;
    CeilDivLeast(x, T, q + 1);
    MulLe(CeilDiv(x, T), q + 1, C);
    assert (q + 1) * C == C * q + C;
  }

  /** A finished service has done all its demand up to x. */
  lemma {:induction false} FinishedDemand(ts: seq<Task>, ev: seq<int>, j: nat, x: nat)
    requires Wf(ts) && j < |ts| && 1 <= x <= |ev| && Finished(ts, ev, j, x)
    ensures Count(ev, j, 0, x) >= CeilDiv(x, ts[j].T) * ts[j].C
  {
    var T, C := ts[j].T, ts[j].C;
    var r := Release(T, x - 1);
    FullLoad(ts, ev, j, r);
    CountSplit(ev, j, 0, r, x - 1);
    CountSplit(ev, j, 0, x - 1, x);
    WindowsUpTo(T, x, C);
  }

  lemma {:induction false} FinishedAll(ts: seq<Task>, ev: seq<int>, n: nat, x: nat)
    requires Wf(ts) && n <= |ts| && 1 <= x <= |ev|
    requires forall j :: 0 <= j < n ==> Finished(ts, ev, j, x)
    ensures Total(ev, n, 0, x) >= Interference(ts, n, x)
  {
    if n > 0 {
      FinishedAll(ts, ev, n - 1, x);
      FinishedDemand(ts, ev, n - 1, x);
    }
  }

  /** The tick after the last one in [a, b) that ran `v`. */
  lemma {:induction false} LastRun(ev: seq<int>, v: int, a: nat, b: nat) returns (x: nat)
    requires b <= |ev| && Count(ev, v, a, b) > 0
    ensures a < x <= b && ev[x - 1] == v && Count(ev, v, a, x) == Count(ev, v, a, b)
  {
    x := b;
    while ev[x - 1] != v
      invariant a < x <= b && Count(ev, v, a, x) == Count(ev, v, a, b)
      decreases x
    {
      x := x - 1;
    }
  }

  /** The first job of `i`, released together with all others, takes as long as the demand at its level:
      if it finishes, it does so no earlier than some x at which that demand fits. */
  lemma {:induction false} FirstJob(ts: seq<Task>, ev: seq<int>, i: nat) returns (x: nat)
    requires Wf(ts) && Legal(ts, ev) && WorkConserving(ts, ev) && RmRule(ts, ev)
    requires i < |ts| && ts[i].C >= 1 && ts[i].T <= |ev|
    requires forall j :: 0 <= j < i ==> MetFor(ts, ev, j, ts[i].T)
    requires Count(ev, i, 0, ts[i].T) == ts[i].C
    ensures 1 <= x <= ts[i].T && Level(ts, i, x) <= x
    ensures ev[x - 1] == i && Count(ev, i, 0, x) == ts[i].C
  {
    x := LastRun(ev, i, 0, ts[i].T);
    forall j | 0 <= j < i ensures Finished(ts, ev, j, x) {
      assert MetFor(ts, ev, j, ts[i].T);
    }
    FinishedAll(ts, ev, i, x);
    TotalPlusIdle(ev, |ts|, 0, x);
    TotalGrows(ev, i + 1, |ts|, 0, x);
  }

  lemma {:induction false} TotalGrows(ev: seq<int>, m: nat, n: nat, a: nat, b: nat)
    requires m <= n && b <= |ev|
    ensures Total(ev, m, a, b) <= Total(ev, n, a, b)
  {
    if m < n {
      TotalGrows(ev, m, n - 1, a, b);
    }
  }

  /** Every service with work fits. */
  ghost predicate WorkFits(ts: seq<Task>)
    requires Wf(ts)
  {
    forall i :: 0 <= i < |ts| && ts[i].C >= 1 ==> Fits(ts, i)
  }

  /** Rate-monotonic order: shorter periods first. */
  predicate InOrder(ts: seq<Task>) {
    forall i, j :: 0 <= i < j < |ts| ==> ts[i].T <= ts[j].T
  }

  /** The demand of the first n services fits in the period of any service that is not shorter than theirs. */
  lemma {:induction false} FitBelow(ts: seq<Task>, n: nat, T: int) returns (x: nat)
    requires Wf(ts) && WorkFits(ts) && n <= |ts| && T >= 1 && forall j :: 0 <= j < n ==> ts[j].T <= T
    ensures 1 <= x <= T && Interference(ts, n, x) <= x
  {
    if n == 0 {
      x := 1;
    } else if ts[n - 1].C == 0 {
      x := FitBelow(ts, n - 1, T);
    } else {
      assert Fits(ts, n - 1);
      x :| 1 <= x <= ts[n - 1].T && Level(ts, n - 1, x) <= x;
      OwnDemand(ts, n - 1, x);
    }
  }

  /** So in rate-monotonic order a service without work fits too. */
  lemma {:induction false} OrderedFit(ts: seq<Task>)
    requires Wf(ts) && InOrder(ts)
    ensures WorkFits(ts) <==> AllFit(ts)
  {
    if WorkFits(ts) {
      forall i | 0 <= i < |ts| && ts[i].C == 0 ensures Fits(ts, i) {
        var x := FitBelow(ts, i, ts[i].T);
        assert Level(ts, i, x) <= x;
      }
    }
  }

  /** If every service with work fits, no job is ever short ... */
  lemma {:induction false} RmMeets(ts: seq<Task>, ev: seq<int>)
    requires Wf(ts) && Legal(ts, ev) && WorkConserving(ts, ev) && RmRule(ts, ev) && WorkFits(ts)
    ensures MetBy(ts, ev, |ev|)
  {
    forall i, d | DueAt(ts, i, d) && d <= |ev| ensures Complete(ts, ev, i, d) {
      var r := d - ts[i].T;
      ReleaseUnique(ts[i].T, d, d);
      ReleaseNext(ts[i].T, d);
      LegalCap(ts, ev, i, r, d);
      if ts[i].C >= 1 {
        var x: nat :| 1 <= x <= ts[i].T && Level(ts, i, x) <= x;
        ResponseWithin(ts, ev, i, r, x);
        CountSplit(ev, i, r, r + x, d);
      }
    }
  }

  /** ... and if no job is short over a run that covers every first job, every service with work fits. */
  lemma {:induction false} RmNeedsFit(ts: seq<Task>, ev: seq<int>)
    requires Wf(ts) && Legal(ts, ev) && WorkConserving(ts, ev) && RmRule(ts, ev)
    requires forall i :: 0 <= i < |ts| ==> ts[i].T <= |ev|
    requires MetBy(ts, ev, |ev|)
    ensures WorkFits(ts)
  {
    forall i | 0 <= i < |ts| && ts[i].C >= 1 ensures Fits(ts, i) {
      DivModUnique(ts[i].T, ts[i].T, 1, 0);
      assert Complete(ts, ev, i, ts[i].T);
      var x := FirstJob(ts, ev, i);
    }
  }

  /** `a` is the least positive time that covers the demand at level i. */
  ghost predicate IsResponse(ts: seq<Task>, i: nat, a: nat)
    requires Wf(ts) && i < |ts|
  {
    1 <= a && Level(ts, i, a) <= a && forall x: nat :: 1 <= x < a ==> Level(ts, i, x) > x
  }

  /** In a run without short jobs that time bounds every response, and the first job attains it. */
  lemma {:induction false} ResponseExact(ts: seq<Task>, ev: seq<int>, i: nat, a: nat, k: nat)
    requires Wf(ts) && Legal(ts, ev) && WorkConserving(ts, ev) && RmRule(ts, ev)
    requires WorkFits(ts) && MetBy(ts, ev, |ev|) && i < |ts| && ts[i].C >= 1
    requires IsResponse(ts, i, a) && k % ts[i].T == 0 && k + ts[i].T <= |ev|
    ensures a <= ts[i].T
    ensures Count(ev, i, k, k + a) == ts[i].C
    ensures Count(ev, i, 0, a - 1) < ts[i].C
  {
    assert Fits(ts, i);
    ResponseWithin(ts, ev, i, k, a);
    DivModUnique(ts[i].T, ts[i].T, 1, 0);
    assert Complete(ts, ev, i, ts[i].T);
    var x := FirstJob(ts, ev, i);
    CountSplit(ev, i, 0, a - 1, x - 1);
  }
}
