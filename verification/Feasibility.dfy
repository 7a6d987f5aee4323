/** The two analytic tests, completion time and scheduling point, and their agreement. */
module Feasibility {
  import opened Arith
  import opened Trace
  import opened Utilization
  import opened Demand
  import opened Rm
  import opened Scheduler

  /** One job of each of the first n services: where the completion-time iteration starts. */
  function Load(ts: seq<Task>, n: nat): int
    requires Wf(ts) && n <= |ts|
  {
    if n == 0 then 0 else Load(ts, n - 1) + ts[n - 1].C
  }

  /** The demand at level i is covered by some time that starts at the load and ends by `d`. */
  ghost predicate CoveredBy(ts: seq<Task>, i: nat, d: int)
    requires Wf(ts) && i < |ts|
  {
    exists x: nat :: Load(ts, i + 1) <= x <= d && Level(ts, i, x) <= x
  }

  /** The iteration's result: the least time, from the load on, that covers the demand; it is a fixed point. */
  ghost predicate IsCompletion(ts: seq<Task>, i: nat, a: nat)
    requires Wf(ts) && i < |ts|
  {
    Load(ts, i + 1) <= a && Level(ts, i, a) == a &&
    forall y: nat :: Load(ts, i + 1) <= y && Level(ts, i, y) <= y ==> a <= y
  }

  lemma {:induction false} LoadInterference(ts: seq<Task>, n: nat, x: nat)
    requires Wf(ts) && n <= |ts|
    ensures 0 <= Load(ts, n)
    ensures x >= 1 ==> Load(ts, n) <= Interference(ts, n, x)
    ensures Load(ts, n) == Interference(ts, n, 1)
  {
    if n > 0 {
      LoadInterference(ts, n - 1, x);
      if x >= 1 {
        CeilDivMono(1, x, ts[n - 1].T);
        MulLe(1, CeilDiv(x, ts[n - 1].T), ts[n - 1].C);
      }
    }
  }

  /** A positive time that covers the demand is at least the load. */
  lemma {:induction false} LoadFirst(ts: seq<Task>, i: nat, x: nat)
    requires Wf(ts) && i < |ts| && Level(ts, i, x) <= x
    ensures x >= 1 ==> Load(ts, i + 1) <= x
  {
    LoadInterference(ts, i, x);
  }

  lemma {:induction false} LevelOfLoad(ts: seq<Task>, i: nat, x: nat)
    requires Wf(ts) && i < |ts| && x == Load(ts, i + 1)
    ensures Level(ts, i, x) >= x
  {
    LoadInterference(ts, i, x);
    InterferenceMono(ts, i, x, x);
  }

  /** With a positive bound, covering from the load on and covering at all are the same. */
  lemma {:induction false} CoveredIsFits(ts: seq<Task>, i: nat)
    requires Wf(ts) && i < |ts|
    ensures CoveredBy(ts, i, ts[i].T) <==> Fits(ts, i)
  {
    if CoveredBy(ts, i, ts[i].T) {
      var x: nat :| Load(ts, i + 1) <= x <= ts[i].T && Level(ts, i, x) <= x;
      if x == 0 {
        LoadMono(ts, 0, i + 1);
        LoadZero(ts, i, i);
        LoadInterference(ts, i, 0);
        assert 1 <= 1 <= ts[i].T && Level(ts, i, 1) <= 1;
      }
    }
    if Fits(ts, i) {
      var x: nat :| 1 <= x <= ts[i].T && Level(ts, i, x) <= x;
      LoadFirst(ts, i, x);
    }
  }

  lemma {:induction false} LoadZero(ts: seq<Task>, i: nat, n: nat)
    requires Wf(ts) && n <= i < |ts| && Load(ts, i + 1) == 0
    ensures Load(ts, n) == 0 && Interference(ts, n, 1) == 0
    ensures ts[i].C == 0
  {
    LoadMono(ts, n, i);
    LoadInterference(ts, i, 0);
    LoadInterference(ts, n, 0);
    if n > 0 {
      LoadZero(ts, i, n - 1);
    }
  }

  lemma {:induction false} LoadMono(ts: seq<Task>, m: nat, n: nat)
    requires Wf(ts) && m <= n <= |ts|
    ensures Load(ts, m) <= Load(ts, n)
    decreases n
  {
    if m < n {
      LoadMono(ts, m, n - 1);
    }
  }

  /** A completion time of a service with work is the least positive time that covers its demand. */
  lemma {:induction false} CompletionIsResponse(ts: seq<Task>, i: nat, a: nat)
    requires Wf(ts) && i < |ts| && ts[i].C >= 1 && IsCompletion(ts, i, a)
    ensures IsResponse(ts, i, a)
  {
    LoadInterference(ts, i, 0);
    forall x: nat | 1 <= x < a ensures Level(ts, i, x) > x {
      if Level(ts, i, x) <= x {
        LoadFirst(ts, i, x);
      }
    }
  }

  /** The services before i leave time over, or fill it exactly and i itself asks for none. */
  predicate Stops(ts: seq<Task>, i: nat, H: nat)
    requires Wf(ts) && i < |ts|
  {
    Util(ts, i, H) < H || (ts[i].C == 0 && Util(ts, i, H) <= H)
  }

  /** Then some whole number of hyperperiods covers the demand at level i ... */
  lemma {:induction false} SomeCover(ts: seq<Task>, i: nat, H: nat) returns (y: nat)
    requires Wf(ts) && i < |ts| && IsHyper(ts, H) && Stops(ts, i, H)
    ensures Load(ts, i + 1) <= y && Level(ts, i, y) <= y
  {
    var k := if ts[i].C == 0 then 1 else ts[i].C;
    y := k * H;
    InterferenceHyper(ts, i, k, H);
    MulLe(1, k, H);
    if Util(ts, i, H) < H {
      MulLe(Util(ts, i, H), H - 1, k);
      assert k * (H - 1) == y - k;
    } else {
      MulLe(Util(ts, i, H), H, k);
    }
    LoadFirst(ts, i, y);
  }

  /** ... and otherwise no time does. */
  lemma {:induction false} NoCover(ts: seq<Task>, i: nat, H: nat, y: nat)
    requires Wf(ts) && i < |ts| && IsHyper(ts, H)
    requires Load(ts, i + 1) <= y && Level(ts, i, y) <= y
    ensures Stops(ts, i, H)
  {
    if y == 0 {
      LoadInterference(ts, i + 1, 0);
      LoadZero(ts, i, i);
      LoadMono(ts, 0, i);
      ZeroLoad(ts, i, H);
    } else {
      InterferenceAtLeast(ts, i, y, H);
      MulLe(Interference(ts, i, y), y - ts[i].C, H);
      Distribute(y, -ts[i].C, H);
      CancelLe(Util(ts, i, H), H, y);
      if Util(ts, i, H) == H {
        CancelLe(ts[i].C, 0, H);
      }
    }
  }

  lemma {:induction false} ZeroLoad(ts: seq<Task>, n: nat, H: nat)
    requires Wf(ts) && n <= |ts| && Load(ts, n) == 0
    ensures Util(ts, n, H) == 0
  {
    if n > 0 {
      LoadInterference(ts, n - 1, 0);
      ZeroLoad(ts, n - 1, H);
    }
  }

  /** The successive values of `an`. */
  function Approach(ts: seq<Task>, i: nat, k: nat): (an: nat)
    requires Wf(ts) && i < |ts|
  {
    if k == 0 then
      LoadInterference(ts, i + 1, 0);
      Load(ts, i + 1)
    else
      var an := Approach(ts, i, k - 1);
      InterferenceMono(ts, i, an, an);
      Level(ts, i, an)
  }

  /** They grow by at least one a step and stay below every time that covers the demand. */
  lemma {:induction false} ApproachGrows(ts: seq<Task>, i: nat, k: nat, y: nat)
    requires Wf(ts) && i < |ts| && Load(ts, i + 1) <= y && Level(ts, i, y) <= y
    requires forall m: nat :: m < k ==> Approach(ts, i, m + 1) != Approach(ts, i, m)
    ensures k <= Approach(ts, i, k) <= y
    ensures Approach(ts, i, k) <= Approach(ts, i, k + 1)
  {
    var an := Approach(ts, i, k);
    if k == 0 {
      LevelOfLoad(ts, i, an);
    } else {
      ApproachGrows(ts, i, k - 1, y);
      InterferenceMono(ts, i, Approach(ts, i, k - 1), y);
      InterferenceMono(ts, i, Approach(ts, i, k - 1), an);
    }
  }

  /** The iteration for service i stops if and only if the services before it use strictly less than the whole
      processor, or at most the whole if it has no work. */
  lemma {:induction false} StopsExact(ts: seq<Task>, i: nat, H: nat)
    requires Wf(ts) && i < |ts| && IsHyper(ts, H)
    ensures (exists k: nat :: Approach(ts, i, k + 1) == Approach(ts, i, k)) <==> Stops(ts, i, H)
  {
    if k: nat :| Approach(ts, i, k + 1) == Approach(ts, i, k) {
      ApproachStarts(ts, i, k);
      NoCover(ts, i, H, Approach(ts, i, k));
    }
    if Stops(ts, i, H) {
      var y := SomeCover(ts, i, H);
      if forall k: nat :: Approach(ts, i, k + 1) != Approach(ts, i, k) {
        ApproachGrows(ts, i, y + 1, y);
        assert false;
      }
    }
  }

  lemma {:induction false} ApproachStarts(ts: seq<Task>, i: nat, k: nat)
    requires Wf(ts) && i < |ts|
    ensures Load(ts, i + 1) <= Approach(ts, i, k) <= Approach(ts, i, k + 1)
  {
    if k == 0 {
      LevelOfLoad(ts, i, Approach(ts, i, 0));
    } else {
      ApproachStarts(ts, i, k - 1);
      InterferenceMono(ts, i, Approach(ts, i, k - 1), Approach(ts, i, k));
    }
  }

  /** The inner loops of the completion-time test for service i. They stop because the iterates grow from the load
      towards any time that covers the demand and never pass it. */
  method CompletionTime(period: array<int>, wcet: array<int>, i: nat, ghost H: nat) returns (an: nat)
    requires period.Length == wcet.Length && i < period.Length
    requires var ts := TaskSet(period[..], wcet[..]); Wf(ts) && IsHyper(ts, H) && Stops(ts, i, H)
    ensures IsCompletion(TaskSet(period[..], wcet[..]), i, an)
    ensures exists k: nat :: Approach(TaskSet(period[..], wcet[..]), i, k) == an
    ensures Util(TaskSet(period[..], wcet[..]), i + 1, H) <= H ==> an <= H
  {
    ghost var ts := TaskSet(period[..], wcet[..]);
    an := 0;
    for j := 0 to i + 1
      invariant an == Load(ts, j)
    {
      assert ts[j] == Task(period[j], wcet[j]);
      an := an + wcet[j];
    }
    ghost var y := SomeCover(ts, i, H);
    LevelOfLoad(ts, i, an);
    ghost var k: nat := 0;
    while true
      invariant Load(ts, i + 1) <= an <= y && an <= Level(ts, i, an) && an == Approach(ts, i, k)
      invariant forall y: nat :: Load(ts, i + 1) <= y && Level(ts, i, y) <= y ==> an <= y
      decreases y - an
    {
      var anext := Demanded(period, wcet, i, an);
      if anext == an {
        break;
      }
      IterateUp(ts, i, an, anext, y);
      an, k := anext, k + 1;
    }
    if Util(ts, i + 1, H) <= H {
      LevelHyper(ts, i, H);
      LoadFirst(ts, i, H);
    }
  }

  /** One step of the iteration keeps below every time that covers the demand. */
  lemma {:induction false} IterateUp(ts: seq<Task>, i: nat, an: nat, anext: nat, bound: nat)
    requires Wf(ts) && i < |ts| && anext == Level(ts, i, an) && an <= anext
    requires forall y: nat :: Load(ts, i + 1) <= y && Level(ts, i, y) <= y ==> an <= y
    requires Load(ts, i + 1) <= bound && Level(ts, i, bound) <= bound
    ensures anext <= bound && anext <= Level(ts, i, anext)
    ensures forall y: nat :: Load(ts, i + 1) <= y && Level(ts, i, y) <= y ==> anext <= y
  {
    InterferenceMono(ts, i, an, anext);
    forall y: nat | Load(ts, i + 1) <= y && Level(ts, i, y) <= y ensures anext <= y {
      InterferenceMono(ts, i, an, y);
    }
  }

  /** The next iterate: the demand at level i over `an`. */
  method Demanded(period: array<int>, wcet: array<int>, i: nat, an: nat) returns (anext: nat)
    requires period.Length == wcet.Length && i < period.Length && Wf(TaskSet(period[..], wcet[..]))
    ensures anext == Level(TaskSet(period[..], wcet[..]), i, an)
  {
    ghost var ts := TaskSet(period[..], wcet[..]);
    var sum := wcet[i];
    for j := 0 to i
      invariant sum == ts[i].C + Interference(ts, j, an)
    {
      assert ts[j] == Task(period[j], wcet[j]);
      sum := sum + CeilDiv(an, period[j]) * wcet[j];
    }
    InterferenceMono(ts, i, an, an);
    anext := sum;
  }

  /** The completion-time test: every service's demand is covered by its deadline. Its loops all stop. */
  method CompletionTimeFeasibility(period: array<int>, wcet: array<int>, deadline: array<int>, ghost H: nat)
    returns (feasible: bool)
    requires period.Length == wcet.Length == deadline.Length
    requires var ts := TaskSet(period[..], wcet[..]);
             Wf(ts) && IsHyper(ts, H) && forall i :: 0 <= i < |ts| ==> Stops(ts, i, H)
    ensures feasible <==>
            forall i :: 0 <= i < period.Length ==> CoveredBy(TaskSet(period[..], wcet[..]), i, deadline[i])
  {
    ghost var ts := TaskSet(period[..], wcet[..]);
    feasible := true;
    for i := 0 to period.Length
      invariant feasible <==> forall k :: 0 <= k < i ==> CoveredBy(ts, k, deadline[k])
    {
      var an := CompletionTime(period, wcet, i, H);
      assert an <= deadline[i] <==> CoveredBy(ts, i, deadline[i]);
      if an > deadline[i] {
        feasible := false;
      }
    }
  }

  // ----- scheduling points -----

  /** Multiple number l of the period of service s is a point at which the demand up to level i fits. */
  predicate PointFits(ts: seq<Task>, i: nat, s: nat, l: nat)
    requires Wf(ts) && s <= i < |ts|
  {
    Interference(ts, i + 1, l * ts[s].T) <= l * ts[s].T
  }

  ghost predicate SomePointFits(ts: seq<Task>, i: nat)
    requires Wf(ts) && i < |ts|
  {
    exists s: nat, l: nat :: s <= i && 1 <= l <= ts[i].T / ts[s].T && PointFits(ts, i, s, l)
  }

  /** Between x and the next multiple of any period at or below level n the demand does not change. */
  lemma {:induction false} NextPoint(ts: seq<Task>, n: nat, x: nat) returns (s: nat, l: nat)
    requires Wf(ts) && 1 <= n <= |ts| && 1 <= x
    ensures s < n && l == CeilDiv(x, ts[s].T) && 1 <= l && x <= l * ts[s].T
    ensures forall j :: 0 <= j < n ==> l * ts[s].T <= CeilDiv(x, ts[j].T) * ts[j].T
  {
    var c := CeilDiv(x, ts[n - 1].T);
    CeilDivIsCeiling(x, ts[n - 1].T);
    CeilDivMono(1, x, ts[n - 1].T);
    s, l := n - 1, c;
    if n > 1 {
      var s', l' := NextPoint(ts, n - 1, x);
      if l' * ts[s'].T < c * ts[n - 1].T {
        s, l := s', l';
      }
    }
  }

  lemma {:induction false} SameDemand(ts: seq<Task>, n: nat, x: nat, y: nat)
    requires Wf(ts) && n <= |ts| && x <= y
    requires forall j :: 0 <= j < n ==> y <= CeilDiv(x, ts[j].T) * ts[j].T
    ensures Interference(ts, n, x) == Interference(ts, n, y)
  {
    if n > 0 {
      SameDemand(ts, n - 1, x, y);
      CeilDivMono(x, y, ts[n - 1].T);
      CeilDivLeast(y, ts[n - 1].T, CeilDiv(x, ts[n - 1].T));
    }
  }

  /** The points the test tries are enough: some point fits if and only if some time does. */
  lemma {:induction false} PointsSuffice(ts: seq<Task>, i: nat)
    requires Wf(ts) && i < |ts|
    ensures SomePointFits(ts, i) <==> Fits(ts, i)
  {
    var T := ts[i].T;
    if SomePointFits(ts, i) {
      var s: nat, l: nat :| s <= i && 1 <= l <= T / ts[s].T && PointFits(ts, i, s, l);
      var x := l * ts[s].T;
      PointInPeriod(T, ts[s].T, l);
      OwnDemand(ts, i, x);
    }
    if Fits(ts, i) {
      var x: nat :| 1 <= x <= T && Level(ts, i, x) <= x;
      var s, l := NextPoint(ts, i + 1, x);
      var y := l * ts[s].T;
      SameDemand(ts, i + 1, x, y);
      OwnDemand(ts, i, x);
      assert CeilDiv(x, T) * T == T;
      PointInPeriod(T, ts[s].T, l);
      assert PointFits(ts, i, s, l);
    }
  }

  lemma {:induction false} PointInPeriod(T: int, U: int, l: nat)
    requires T >= 1 && U >= 1
    ensures l <= T / U <==> l * U <= T
    ensures l >= 1 ==> l * U >= 1
  {
    var q := T / U;
    if l <= q {
      MulLe(l, q, U);
    } else {
      MulLe(q + 1, l, U);
    }
    if l >= 1 {
      MulLe(1, l, U);
    }
  }

  /** The demand of the services up to level i over x. */
  method PointLoad(period: array<int>, wcet: array<int>, i: nat, x: nat) returns (temp: int)
    requires period.Length == wcet.Length && i < period.Length && Wf(TaskSet(period[..], wcet[..]))
    ensures temp == Interference(TaskSet(period[..], wcet[..]), i + 1, x)
  {
    ghost var ts := TaskSet(period[..], wcet[..]);
    temp := 0;
    for k := 0 to i + 1
      invariant temp == Interference(ts, k, x)
    {
      assert ts[k] == Task(period[k], wcet[k]);
      temp := temp + wcet[k] * CeilDiv(x, period[k]);
    }
  }

  /** The points of one service s for level i. */
  method PointsOf(period: array<int>, wcet: array<int>, i: nat, s: nat) returns (fits: bool)
    requires period.Length == wcet.Length && s <= i < period.Length && Wf(TaskSet(period[..], wcet[..]))
    ensures var ts := TaskSet(period[..], wcet[..]);
            fits <==> exists l: nat :: 1 <= l <= ts[i].T / ts[s].T && PointFits(ts, i, s, l)
  {
    ghost var ts := TaskSet(period[..], wcet[..]);
    assert ts[s] == Task(period[s], wcet[s]) && ts[i] == Task(period[i], wcet[i]);
    var floor := period[i] / period[s];
    var numPeriods := 1;
    fits := false;
    while numPeriods <= floor
      invariant numPeriods >= 1
      invariant forall l: nat :: 1 <= l < numPeriods && l <= floor ==> !PointFits(ts, i, s, l)
    {
      PointInPeriod(1, period[s], numPeriods);
      var temp := PointLoad(period, wcet, i, numPeriods * period[s]);
      assert temp <= numPeriods * period[s] <==> PointFits(ts, i, s, numPeriods);
      if temp <= numPeriods * period[s] {
        return true;
      }
      numPeriods := numPeriods + 1;
    }
  }

  /** The scheduling-point test: every service has a point at which it fits. */
  method SchedulingPointFeasibility(period: array<int>, wcet: array<int>) returns (rc: bool)
    requires period.Length == wcet.Length && Wf(TaskSet(period[..], wcet[..]))
    ensures rc <==> AllFit(TaskSet(period[..], wcet[..]))
  {
    ghost var ts := TaskSet(period[..], wcet[..]);
    rc := true;
    for i := 0 to period.Length
      invariant rc <==> forall k :: 0 <= k < i ==> Fits(ts, k)
    {
      var status := false;
      for s := 0 to i + 1
        invariant !status
        invariant forall k: nat, l: nat :: k < s && 1 <= l <= ts[i].T / ts[k].T ==> !PointFits(ts, i, k, l)
      {
        status := PointsOf(period, wcet, i, s);
        if status {
          break;
        }
      }
      assert status <==> SomePointFits(ts, i);
      PointsSuffice(ts, i);
      if !status {
        rc := false;
      }
    }
  }

  /** The two tests agree on every task set with deadlines equal to periods. */
  lemma {:induction false} TestsAgree(ts: seq<Task>)
    requires Wf(ts)
    ensures (forall i :: 0 <= i < |ts| ==> CoveredBy(ts, i, ts[i].T)) <==> AllFit(ts)
    ensures (forall i :: 0 <= i < |ts| ==> SomePointFits(ts, i)) <==> AllFit(ts)
  {
    forall i | 0 <= i < |ts|
      ensures CoveredBy(ts, i, ts[i].T) <==> Fits(ts, i)
      ensures SomePointFits(ts, i) <==> Fits(ts, i)
    {
      CoveredIsFits(ts, i);
      PointsSuffice(ts, i);
    }
  }
}
