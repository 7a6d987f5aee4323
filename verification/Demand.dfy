/** Worst-case demand of the higher-priority services, as both feasibility tests compute it. */
module Demand {
  import opened Arith
  import opened Trace
  import opened Utilization

  /** sum over the first n services of ceil(x / T) * C */
  function Interference(ts: seq<Task>, n: nat, x: nat): int
    requires Wf(ts) && n <= |ts|
  {
    if n == 0 then 0 else Interference(ts, n - 1, x) + CeilDiv(x, ts[n - 1].T) * ts[n - 1].C
  }

  /** Time demanded of an interval of length x at priority level i: one job of i and all that may precede it. */
  function Level(ts: seq<Task>, i: nat, x: nat): int
    requires Wf(ts) && i < |ts|
  {
    ts[i].C + Interference(ts, i, x)
  }

  /** Some interval within the period of `i` is long enough for the demand at its level. */
  ghost predicate Fits(ts: seq<Task>, i: nat)
    requires Wf(ts) && i < |ts|
  {
    exists x: nat :: 1 <= x <= ts[i].T && Level(ts, i, x) <= x
  }

  /** Every service fits: what both tests decide. */
  ghost predicate AllFit(ts: seq<Task>)
    requires Wf(ts)
  {
    forall i :: 0 <= i < |ts| ==> Fits(ts, i)
  }

  lemma {:induction false} InterferenceMono(ts: seq<Task>, n: nat, x: nat, y: nat)
    requires Wf(ts) && n <= |ts| && x <= y
    ensures 0 <= Interference(ts, n, x) <= Interference(ts, n, y)
  {
    if n > 0 {
      InterferenceMono(ts, n - 1, x, y);
      CeilDivMono(x, y, ts[n - 1].T);
      MulLe(CeilDiv(x, ts[n - 1].T), CeilDiv(y, ts[n - 1].T), ts[n - 1].C);
      MulLe(0, CeilDiv(x, ts[n - 1].T), ts[n - 1].C);
    }
  }

  /** Within its own period a service demands exactly one job. */
  lemma {:induction false} OwnDemand(ts: seq<Task>, i: nat, x: nat)
    requires Wf(ts) && i < |ts| && 1 <= x <= ts[i].T
    ensures Interference(ts, i + 1, x) == Level(ts, i, x)
  {
    assert CeilDiv(x, ts[i].T) == 1;
  }

  lemma {:induction false} CeilDivMultiple(k: nat, H: nat, T: int)
    requires T >= 1 && H % T == 0
    ensures CeilDiv(k * H, T) == k * (H / T)
  {
    var q := k * (H / T);
    QuotientExact(H, T);
    assert k * H == q * T;
    CeilDivIsCeiling(k * H, T);
    DivModUnique(k * H + T - 1, T, q, T - 1);
  }

  lemma {:induction false} HyperStep(w: int, u: int, k: int, q: int, C: int)
    requires w == k * u
    ensures w + (k * q) * C == k * (u + C * q)
  {
  }

  /** Demand over whole hyperperiods is the utilisation sum ... */
  lemma {:induction false} InterferenceHyper(ts: seq<Task>, n: nat, k: nat, H: nat)
    requires Wf(ts) && n <= |ts| && IsHyper(ts, H)
    ensures Interference(ts, n, k * H) == k * Util(ts, n, H)
  {
    if n > 0 {
      InterferenceHyper(ts, n - 1, k, H);
      CeilDivMultiple(k, H, ts[n - 1].T);
      HyperStep(Interference(ts, n - 1, k * H), Util(ts, n - 1, H), k, H / ts[n - 1].T, ts[n - 1].C);
    }
  }

  /** ... and over any interval at least its proportion of it. */
  lemma {:induction false} InterferenceAtLeast(ts: seq<Task>, n: nat, x: nat, H: nat)
    requires Wf(ts) && n <= |ts| && IsHyper(ts, H)
    ensures Interference(ts, n, x) * H >= x * Util(ts, n, H)
  {
    if n > 0 {
      InterferenceAtLeast(ts, n - 1, x, H);
      var T, C := ts[n - 1].T, ts[n - 1].C;
      var c, q := Quotients(x, H, T);
      AddDemand(Interference(ts, n - 1, x), c, C, T, q, H, x, Util(ts, n - 1, H));
    }
  }

  lemma {:induction false} Quotients(x: nat, H: nat, T: int) returns (c: nat, q: nat)
    requires T >= 1 && H % T == 0
    ensures c == CeilDiv(x, T) && q == H / T && x <= c * T && H == T * q
  {
    c, q := CeilDiv(x, T), H / T;
    CeilDivIsCeiling(x, T);
    QuotientExact(H, T);
  }

  lemma {:induction false} AddDemand(w: int, c: nat, C: nat, T: nat, q: nat, H: nat, x: nat, u: int)
    requires w * H >= x * u && x <= c * T && H == T * q
    ensures (w + c * C) * H >= x * (u + C * q)
  {
    MulLe(x, c * T, C * q);
    assert (c * C) * (T * q) == (c * T) * (C * q);
    Distribute(w, c * C, H);
    Distribute(u, C * q, x);
  }

  /** With utilisation at most one up to level i, the demand at that level fits in the hyperperiod. */
  lemma {:induction false} LevelHyper(ts: seq<Task>, i: nat, H: nat)
    requires Wf(ts) && i < |ts| && IsHyper(ts, H) && Util(ts, i + 1, H) <= H
    ensures Level(ts, i, H) <= H
  {
    InterferenceHyper(ts, i, 1, H);
    QuotientExact(H, ts[i].T);
    assert H / ts[i].T >= 1;
    MulLe(1, H / ts[i].T, ts[i].C);
  }
}
