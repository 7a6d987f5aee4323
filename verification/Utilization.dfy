/** Processor utilisation, written in integers over a common multiple H of the periods,
    and the total work done in an interval. */
module Utilization {
  import opened Arith
  import opened Trace

  /** H is a common multiple of the periods. */
  predicate IsHyper(ts: seq<Task>, H: int)
    requires Wf(ts)
  {
    H >= 1 && forall i :: 0 <= i < |ts| ==> H % ts[i].T == 0
  }

  /** sum over the first n services of C * (H / T); utilisation is at most one iff this is at most H. */
  function Util(ts: seq<Task>, n: nat, H: nat): int
    requires Wf(ts) && n <= |ts|
  {
    if n == 0 then 0 else Util(ts, n - 1, H) + ts[n - 1].C * (H / ts[n - 1].T)
  }

  /** Ticks a .. b-1 spent on the first n services. */
  function Total(ev: seq<int>, n: nat, a: nat, b: nat): nat
    requires b <= |ev|
  {
    if n == 0 then 0 else Total(ev, n - 1, a, b) + Count(ev, n - 1, a, b)
  }

  /** Every task set has one. */
  lemma {:induction false} HyperExists(ts: seq<Task>) returns (H: nat)
    requires Wf(ts)
    ensures IsHyper(ts, H)
  {
    H := 1;
    if ts != [] {
      var m, T := |ts| - 1, ts[|ts| - 1].T;
      var h := HyperExists(ts[..m]);
      H := h * T;
      MulLe(1, T, h);
      DivModUnique(H, T, h, 0);
      forall i | 0 <= i < m ensures H % ts[i].T == 0 {
        assert ts[..m][i] == ts[i];
        QuotientExact(h, ts[i].T);
        DivModUnique(H, ts[i].T, (h / ts[i].T) * T, 0);
      }
    }
  }

  lemma {:induction false} TotalStep(ev: seq<int>, n: nat, a: nat, b: nat)
    requires a < b <= |ev|
    ensures Total(ev, n, a, b) == Total(ev, n, a, b - 1) + (if 0 <= ev[b - 1] < n then 1 else 0)
  {
    if n > 0 {
      TotalStep(ev, n - 1, a, b);
    }
  }

  lemma {:induction false} TotalEmpty(ev: seq<int>, n: nat, a: nat, b: nat)
    requires b <= a && b <= |ev|
    ensures Total(ev, n, a, b) == 0
  {
    if n > 0 {
      TotalEmpty(ev, n - 1, a, b);
    }
  }

  /** Work plus idle ticks fill the interval. */
  lemma {:induction false} TotalPlusIdle(ev: seq<int>, n: nat, a: nat, b: nat)
    requires a <= b <= |ev|
    requires forall u :: a <= u < b ==> ev[u] == IDLE || 0 <= ev[u] < n
    ensures Total(ev, n, a, b) + Count(ev, IDLE, a, b) == b - a
    decreases b
  {
    if a == b {
      TotalEmpty(ev, n, a, b);
    } else {
      TotalStep(ev, n, a, b);
      TotalPlusIdle(ev, n, a, b - 1);
    }
  }

  lemma {:induction false} QuotientExact(H: int, T: int)
    requires T >= 1 && H % T == 0
    ensures T * (H / T) == H
  {
  }

  lemma {:induction false} ScaleShare(n: nat, T: int, C: nat, L: nat, H: nat, slack: nat)
    requires T >= 1 && H >= 1 && H % T == 0 && n * T + slack <= C * L
    ensures n * H + slack * (H / T) <= L * (C * (H / T))
  {
    var q := H / T;
    QuotientExact(H, T);
    MulLe(n * T + slack, C * L, q);
    calc {
      n * H + slack * q;
      == n * (T * q) + slack * q;
      == (n * T + slack) * q;
      <= (C * L) * q;
      == L * (C * q);
    }
  }

  /** Run time of the first n services with period `top`. */
  function TopLoad(ts: seq<Task>, n: nat, top: int): (load: int)
    requires Wf(ts) && n <= |ts|
  {
    if n == 0 then 0 else TopLoad(ts, n - 1, top) + (if ts[n - 1].T == top then ts[n - 1].C else 0)
  }

  /** The utilisation sum of the others. */
  function OtherUtil(ts: seq<Task>, n: nat, H: nat, top: int): (u: int)
    requires Wf(ts) && n <= |ts|
  {
    if n == 0 then 0 else
      OtherUtil(ts, n - 1, H, top) + (if ts[n - 1].T == top then 0 else ts[n - 1].C * (H / ts[n - 1].T))
  }

  lemma {:induction false} UtilSplit(ts: seq<Task>, n: nat, H: nat, top: int, q: int)
    requires Wf(ts) && n <= |ts| && top >= 1 && q == H / top
    ensures Util(ts, n, H) == OtherUtil(ts, n, H, top) + TopLoad(ts, n, top) * q
    ensures OtherUtil(ts, n, H, top) >= 0
  {
    if n > 0 {
      UtilSplit(ts, n - 1, H, top, q);
      MulLe(0, H / ts[n - 1].T, ts[n - 1].C);
      Distribute(TopLoad(ts, n - 1, top), ts[n - 1].C, q);
    }
  }

  lemma {:induction false} Distribute(a: int, b: int, q: int)
    ensures (a + b) * q == a * q + b * q
  {
  }

  lemma {:induction false} NoTopLoad(ts: seq<Task>, n: nat, top: int)
    requires Wf(ts) && n <= |ts| && forall i :: 0 <= i < n ==> ts[i].T < top
    ensures TopLoad(ts, n, top) == 0
  {
    if n > 0 {
      NoTopLoad(ts, n - 1, top);
    }
  }

  /** How far a service stays below its share: a period if it is `x`, and its run time if the interval
      lost a tick to the services with period `top` and it is not one of them. */
  function Gap(ts: seq<Task>, j: int, x: int, lost: bool, top: int): (g: nat)
    requires Wf(ts) && 0 <= j < |ts|
  {
    (if lost && ts[j].T != top then ts[j].C else 0) + (if j == x then ts[j].T else 0)
  }

  lemma {:induction false} GapShare(ts: seq<Task>, j: int, x: int, lost: bool, top: int, H: nat)
    requires Wf(ts) && IsHyper(ts, H) && 0 <= j < |ts|
    ensures Gap(ts, j, x, lost, top) * (H / ts[j].T) ==
            (if lost && ts[j].T != top then ts[j].C * (H / ts[j].T) else 0) + (if j == x then H else 0)
  {
    QuotientExact(H, ts[j].T);
  }

  lemma {:induction false} AddShares(W: nat, w: nat, H: nat, s: int, s': int, L: nat, u: int, v: int)
    requires W * H + s <= L * u && w * H + s' <= L * v
    ensures (W + w) * H + s + s' <= L * (u + v)
  {
  }

  /** What the shares of an interval leave for its work. */
  lemma {:induction false} SharesBound(ts: seq<Task>, ev: seq<int>, n: nat, a: nat, d: nat, H: nat,
                                       x: int, lost: bool, top: int)
    requires Wf(ts) && IsHyper(ts, H) && n <= |ts| && a <= d <= |ev|
    requires forall j :: 0 <= j < |ts| ==>
               Count(ev, j, a, d) * ts[j].T + Gap(ts, j, x, lost, top) <= ts[j].C * (d - a)
    ensures Total(ev, n, a, d) * H + (if lost then OtherUtil(ts, n, H, top) else 0) + (if 0 <= x < n then H else 0)
            <= (d - a) * Util(ts, n, H)
  {
    if n > 0 {
      var j := n - 1;
      SharesBound(ts, ev, j, a, d, H, x, lost, top);
      ScaleShare(Count(ev, j, a, d), ts[j].T, ts[j].C, d - a, H, Gap(ts, j, x, lost, top));
      GapShare(ts, j, x, lost, top, H);
      AddShares(Total(ev, j, a, d), Count(ev, j, a, d), H,
                (if lost then OtherUtil(ts, j, H, top) else 0) + (if 0 <= x < j then H else 0),
                Gap(ts, j, x, lost, top) * (H / ts[j].T), d - a, Util(ts, j, H), ts[j].C * (H / ts[j].T));
    }
  }
}
