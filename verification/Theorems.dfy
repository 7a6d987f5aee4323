/** The main results about the scheduler: exactness of the utilisation bound for EDF and LLF, exactness of the
    demand test for RM, periodicity, and slack. */
module Theorems {
  import opened Arith
  import opened Trace
  import opened Utilization
  import opened Demand
  import opened Edf
  import opened Optimal
  import opened Rm
  import opened Schedule
  import opened Hyperperiod

  // ----- EDF and LLF -----

  lemma {:induction false} EdfFollows(ts: seq<Task>, n: nat)
    requires Wf(ts) && InRange(ts)
    ensures Legal(ts, Events(EDF, ts, n)) && EdfRule(ts, Events(EDF, ts, n))
    ensures ConservingBut(ts, Events(EDF, ts, n), INT_MAX)
  {
    EventsDisciplined(EDF, ts, n);
    var ev := Events(EDF, ts, n);
    forall t, i | 0 <= t < n && ev[t] != IDLE && 0 <= i < |ts| && Pending(ts, ev, i, t)
      ensures AbsDeadline(ts, ev[t], t) <= AbsDeadline(ts, i, t)
    {
      ChoiceAt(EDF, ts, n, t, i);
    }
  }

  lemma {:induction false} UrgencyFollows(protocol: Protocol, ts: seq<Task>, n: nat)
    requires Wf(ts) && InRange(ts) && protocol != RM
    ensures Legal(ts, Events(protocol, ts, n)) && UrgencyRule(ts, Events(protocol, ts, n))
  {
    EventsDisciplined(protocol, ts, n);
    var ev := Events(protocol, ts, n);
    forall t, i | 0 <= t < n && ev[t] != IDLE && 0 <= i < |ts| && Pending(ts, ev, i, t)
      ensures Dominates(ts, ev, ev[t], i, t)
    {
      ChoiceAt(protocol, ts, n, t, i);
    }
  }

  lemma {:induction false} LongestPeriod(ts: seq<Task>, n: nat) returns (m: nat)
    requires n <= |ts|
    ensures forall i :: 0 <= i < n ==> ts[i].T <= m
  {
    if n == 0 {
      m := 0;
    } else {
      var k := LongestPeriod(ts, n - 1);
      m := if ts[n - 1].T > k then ts[n - 1].T else k;
    }
  }

  /** A protocol that never misses leaves a feasible hyperperiod behind, so utilisation is at most one. */
  lemma {:induction false} NeverMissesUtil(protocol: Protocol, ts: seq<Task>, H: nat)
    requires Wf(ts) && InRange(ts) && IsHyper(ts, H) && NeverMisses(protocol, ts)
    ensures Feasible(ts, Events(protocol, ts, H))
    ensures Util(ts, |ts|, H) <= H
  {
    NeverMissesMeets(protocol, ts, H);
    EventsDisciplined(protocol, ts, H);
    FeasibleUtil(ts, Events(protocol, ts, H));
  }

  /** When services with period `top` complete within [0, top) but none of them runs in tick 0, their run times fit
      in the ticks from 1 on. */
  lemma {:induction false} TopFits(ts: seq<Task>, ev: seq<int>, n: nat, top: nat)
    requires Wf(ts) && n <= |ts| && 1 <= top <= |ev|
    requires forall i :: 0 <= i < n && ts[i].T == top ==> ev[0] != i && Count(ev, i, 0, top) == ts[i].C
    ensures TopLoad(ts, n, top) <= Total(ev, n, 1, top)
  {
    if n > 0 {
      TopFits(ts, ev, n - 1, top);
      CountSplit(ev, n - 1, 0, 1, top);
      CountNone(ev, n - 1, 0, if ts[n - 1].T == top then 1 else 0);
    }
  }

  /** EDF loses the first tick of every service with period INT_MAX, so it never misses only if their run times
      add up to less than INT_MAX. */
  lemma {:induction false} SentinelNeeds(ts: seq<Task>, top: nat)
    requires Wf(ts) && InRange(ts) && NeverMisses(EDF, ts) && top == INT_MAX
    ensures TopLoad(ts, |ts|, top) < top
  {
    var ev := Events(EDF, ts, top);
    EventsDisciplined(EDF, ts, top);
    NeverMissesMeets(EDF, ts, top);
    forall i | 0 <= i < |ts| && ts[i].T == top ensures ev[0] != i && Count(ev, i, 0, top) == ts[i].C {
      ChoiceAt(EDF, ts, top, 0, i);
      DivModUnique(top, top, 1, 0);
      assert Complete(ts, ev, i, top);
    }
    TopFits(ts, ev, |ts|, top);
    TotalPlusIdle(ev, |ts|, 1, top);
  }

  /** EDF is exact up to its sentinel: it never misses if and only if utilisation is at most one and the run times of
      the services with period INT_MAX add up to less than INT_MAX. */
  lemma {:induction false} EdfExact(ts: seq<Task>, H: nat)
    requires Wf(ts) && InRange(ts) && IsHyper(ts, H)
    ensures NeverMisses(EDF, ts) <==> Util(ts, |ts|, H) <= H && TopLoad(ts, |ts|, INT_MAX) < INT_MAX
  {
    if Util(ts, |ts|, H) <= H && TopLoad(ts, |ts|, INT_MAX) < INT_MAX {
      forall n: nat ensures Misses(ts, Events(EDF, ts, n)) == 0 {
        if n > 0 {
          EdfFollows(ts, n - 1);
          EdfMeets(ts, Events(EDF, ts, n - 1), H, INT_MAX);
        }
        MeetsNeverMisses(EDF, ts, n);
      }
    }
    if NeverMisses(EDF, ts) {
      NeverMissesUtil(EDF, ts, H);
      SentinelNeeds(ts, INT_MAX);
    }
  }

  /** So for periods below INT_MAX it is exact. */
  lemma {:induction false} EdfExactBelow(ts: seq<Task>, H: nat)
    requires Wf(ts) && IsHyper(ts, H) && forall i :: 0 <= i < |ts| ==> ts[i].T < INT_MAX
    ensures NeverMisses(EDF, ts) <==> Util(ts, |ts|, H) <= H
  {
    NoTopLoad(ts, |ts|, INT_MAX);
    EdfExact(ts, H);
  }

  /** A feasible choice of services over a hyperperiod exists if and only if utilisation is at most one. */
  lemma {:induction false} FeasibleIff(ts: seq<Task>, H: nat)
    requires Wf(ts) && IsHyper(ts, H)
    ensures (exists f :: |f| == H && Feasible(ts, f)) <==> Util(ts, |ts|, H) <= H
  {
    if f :| |f| == H && Feasible(ts, f) {
      FeasibleUtil(ts, f);
    }
    if Util(ts, |ts|, H) <= H {
      var ev := EdfTrace(ts, H);
      var longest := LongestPeriod(ts, |ts|);
      NoTopLoad(ts, |ts|, longest + 1);
      EdfMeets(ts, ev, H, longest + 1);
      assert Feasible(ts, ev);
    }
  }

  /** EDF and LLF are optimal: if any choice of services `f` completes every job of the hyperperiod |f| by its
      deadline, LLF never misses, over any number of ticks, and EDF never misses exactly when the services with
      period INT_MAX do not fill that period. */
  lemma {:induction false} DynamicOptimal(protocol: Protocol, ts: seq<Task>, f: seq<int>)
    requires Wf(ts) && InRange(ts) && protocol != RM
    requires IsHyper(ts, |f|) && Feasible(ts, f)
    ensures NeverMisses(protocol, ts) <==> (protocol == EDF ==> TopLoad(ts, |ts|, INT_MAX) < INT_MAX)
  {
    var H := |f|;
    if protocol == EDF {
      FeasibleUtil(ts, f);
      EdfExact(ts, H);
    } else {
      var ev := Events(protocol, ts, H);
      UrgencyFollows(protocol, ts, H);
      EventsDisciplined(protocol, ts, H);
      UrgencyOptimal(ts, ev, f, 0);
      RunMeets(protocol, ts, H);
      forall n: nat ensures Misses(ts, Events(protocol, ts, n)) == 0 {
        OnePeriodDecides(protocol, ts, H, n);
      }
    }
  }

  /** LLF is exact. */
  lemma {:induction false} LlfExact(ts: seq<Task>, H: nat)
    requires Wf(ts) && InRange(ts) && IsHyper(ts, H)
    ensures NeverMisses(LLF, ts) <==> Util(ts, |ts|, H) <= H
  {
    FeasibleIff(ts, H);
    if Util(ts, |ts|, H) <= H {
      var f :| |f| == H && Feasible(ts, f);
      DynamicOptimal(LLF, ts, f);
    }
    if NeverMisses(LLF, ts) {
      NeverMissesUtil(LLF, ts, H);
    }
  }

  /** The sentinel costs EDF a tick: a service with period INT_MAX misses exactly when it is fully loaded, although
      utilisation is then still one. */
  lemma {:induction false} EdfSentinel(C: nat)
    requires C <= INT_MAX
    ensures var ts := [Task(0x7fff_ffff, C)];
            && Wf(ts) && IsHyper(ts, INT_MAX) && Util(ts, 1, INT_MAX) <= INT_MAX
            && (NeverMisses(EDF, ts) <==> C < INT_MAX)
  {
    var ts := [Task(INT_MAX, C)];
    OneTask(ts, INT_MAX);
    EdfExact(ts, INT_MAX);
  }

  lemma {:induction false} OneTask(ts: seq<Task>, T: int)
    requires Wf(ts) && |ts| == 1 && ts[0].T == T
    ensures IsHyper(ts, T) && Util(ts, 1, T) == TopLoad(ts, 1, T) == ts[0].C
  {
    DivModUnique(T, T, 1, 0);
    assert Util(ts, 0, T) == TopLoad(ts, 0, T) == 0;
  }

  // ----- RM -----

  lemma {:induction false} RmFollows(ts: seq<Task>, n: nat)
    requires Wf(ts) && InRange(ts)
    ensures Legal(ts, Events(RM, ts, n)) && RmRule(ts, Events(RM, ts, n))
  {
    EventsDisciplined(RM, ts, n);
    var ev := Events(RM, ts, n);
    forall t, i | 0 <= t < n && ev[t] != IDLE && 0 <= i < |ts| && Pending(ts, ev, i, t) ensures ev[t] <= i {
      ChoiceAt(RM, ts, n, t, i);
    }
  }

  /** RM (priority by index) never misses if and only if every service with work fits at its level. */
  lemma {:induction false} RmExact(ts: seq<Task>)
    requires Wf(ts) && InRange(ts)
    ensures NeverMisses(RM, ts) <==> WorkFits(ts)
  {
    if WorkFits(ts) {
      forall n: nat ensures Misses(ts, Events(RM, ts, n)) == 0 {
        if n > 0 {
          EventsDisciplined(RM, ts, n - 1);
          RmFollows(ts, n - 1);
          RmMeets(ts, Events(RM, ts, n - 1));
        }
        MeetsNeverMisses(RM, ts, n);
      }
    }
    if NeverMisses(RM, ts) {
      var n := LongestPeriod(ts, |ts|);
      NeverMissesMeets(RM, ts, n);
      EventsDisciplined(RM, ts, n);
      RmFollows(ts, n);
      RmNeedsFit(ts, Events(RM, ts, n));
    }
  }

  /** The feasibility tests decide whether RM never misses if and only if no service without work spoils their
      answer. */
  lemma {:induction false} RmTestsRight(ts: seq<Task>)
    requires Wf(ts) && InRange(ts)
    ensures (NeverMisses(RM, ts) <==> AllFit(ts)) <==>
            (WorkFits(ts) ==> forall i :: 0 <= i < |ts| && ts[i].C == 0 ==> Fits(ts, i))
  {
    RmExact(ts);
  }

  /** In rate-monotonic order, whatever the run times, none does: the tests are exact, and a run of two hyperperiods
      already shows it. */
  lemma {:induction false} RmTestOrdered(ts: seq<Task>, H: nat)
    requires Wf(ts) && InRange(ts) && IsHyper(ts, H) && InOrder(ts)
    ensures NeverMisses(RM, ts) <==> AllFit(ts)
    ensures Misses(ts, Events(RM, ts, 2 * H)) == 0 <==> AllFit(ts)
  {
    RmExact(ts);
    OrderedFit(ts);
    TwoPeriodsDecide(RM, ts, H);
  }

  /** In any order they are exact when every service has work. */
  lemma {:induction false} RmTestExact(ts: seq<Task>, H: nat)
    requires Wf(ts) && InRange(ts) && IsHyper(ts, H)
    requires forall i :: 0 <= i < |ts| ==> ts[i].C >= 1
    ensures NeverMisses(RM, ts) <==> AllFit(ts)
    ensures Misses(ts, Events(RM, ts, 2 * H)) == 0 <==> AllFit(ts)
  {
    RmExact(ts);
    TwoPeriodsDecide(RM, ts, H);
  }

  /** A set that fits has utilisation at most one. */
  lemma {:induction false} FitBoundsUtil(ts: seq<Task>, H: nat)
    requires Wf(ts) && InRange(ts) && IsHyper(ts, H)
    ensures AllFit(ts) ==> Util(ts, |ts|, H) <= H
  {
    if AllFit(ts) {
      RmExact(ts);
      NeverMissesUtil(RM, ts, H);
    }
  }

  /** Out of that order a service without work can fail the tests although it never misses. */
  lemma {:induction false} NoWorkNoFit()
    ensures var ts := [Task(3, 2), Task(1, 0)]; Wf(ts) && NeverMisses(RM, ts) && !AllFit(ts)
  {
    var ts := [Task(3, 2), Task(1, 0)];
    assert CeilDiv(1, 3) == 1;
    assert Interference(ts, 0, 1) == Interference(ts, 0, 2) == 0;
    assert Interference(ts, 1, 1) == 2;
    assert Level(ts, 0, 2) == 2;
    assert Fits(ts, 0);
    assert !Fits(ts, 1);
    RmExact(ts);
  }

  /** Exact worst-case response: if RM never misses, the response demand of a service is at most its period,
      every job of it finishes within that many ticks of its release, and its first job not earlier. */
  lemma {:induction false} ExactResponse(ts: seq<Task>, i: nat, a: nat, k: nat, n: nat)
    requires Wf(ts) && InRange(ts) && NeverMisses(RM, ts) && i < |ts| && ts[i].C >= 1
    requires IsResponse(ts, i, a) && k % ts[i].T == 0 && k + ts[i].T <= n
    ensures a <= ts[i].T
    ensures Count(Events(RM, ts, n), i, k, k + a) == ts[i].C
    ensures Count(Events(RM, ts, n), i, 0, a - 1) < ts[i].C
  {
    RmExact(ts);
    EventsDisciplined(RM, ts, n);
    RmFollows(ts, n);
    NeverMissesMeets(RM, ts, n);
    ResponseExact(ts, Events(RM, ts, n), i, a, k);
  }

  // ----- what the reported miss count means -----

  /** With the tick count set to two hyperperiods, the reported misses are zero exactly when every service with work
      fits (RM) or utilisation is at most one (LLF; EDF unless services with period INT_MAX fill that period). */
  lemma {:induction false} Verdict(protocol: Protocol, ts: seq<Task>, H: nat)
    requires Wf(ts) && InRange(ts) && IsHyper(ts, H)
    ensures Misses(ts, Events(protocol, ts, 2 * H)) == 0 <==>
            match protocol
            case RM => WorkFits(ts)
            case EDF => Util(ts, |ts|, H) <= H && TopLoad(ts, |ts|, INT_MAX) < INT_MAX
            case LLF => Util(ts, |ts|, H) <= H
  {
    TwoPeriodsDecide(protocol, ts, H);
    match protocol {
      case RM => RmExact(ts);
      case EDF => EdfExact(ts, H);
      case LLF => LlfExact(ts, H);
    }
  }

  lemma {:induction false} ShortRun(protocol: Protocol, ts: seq<Task>, n: nat)
    requires Wf(ts) && forall i :: 0 <= i < |ts| ==> ts[i].T >= n
    ensures Misses(ts, Events(protocol, ts, n)) == 0
  {
    NoMisses(ts, Events(protocol, ts, n));
  }

  /** So a fixed tick count (the source hard-codes twenty) decides nothing for longer periods: a service that
      demands more than its period shows no miss in it. */
  lemma {:induction false} FixedTicksBlind(ticks: nat, T: int)
    requires 1 <= ticks <= T <= INT_MAX
    ensures var ts := [Task(T, T + 1)];
            Wf(ts) && Misses(ts, Events(EDF, ts, ticks)) == 0 && !NeverMisses(EDF, ts)
  {
    var ts := [Task(T, T + 1)];
    ShortRun(EDF, ts, ticks);
    OneTask(ts, T);
    EdfExact(ts, T);
  }

  // ----- slack -----

  /** Work released by tick t, the jobs released at t included. */
  function Released(ts: seq<Task>, n: nat, t: nat): int
    requires Wf(ts) && n <= |ts|
  {
    if n == 0 then 0 else
      Released(ts, n - 1, t) + ts[n - 1].C * (Release(ts[n - 1].T, t) / ts[n - 1].T) + ts[n - 1].C
  }

  /** When nothing was missed, the work done is the work released exactly when nothing is pending. */
  lemma {:induction false} Backlog(ts: seq<Task>, ev: seq<int>, n: nat, t: nat)
    requires Wf(ts) && Legal(ts, ev) && t <= |ev| && MetBy(ts, ev, t) && n <= |ts|
    ensures Total(ev, n, 0, t) <= Released(ts, n, t)
    ensures Total(ev, n, 0, t) == Released(ts, n, t) <==> forall i :: 0 <= i < n ==> !Pending(ts, ev, i, t)
  {
    if n > 0 {
      Backlog(ts, ev, n - 1, t);
      var j := n - 1;
      var r := Release(ts[j].T, t);
      FullLoad(ts, ev, j, r);
      CountSplit(ev, j, 0, r, t);
      LegalCap(ts, ev, j, r, t);
      assert (forall i :: 0 <= i < n ==> !Pending(ts, ev, i, t)) <==>
             (forall i :: 0 <= i < j ==> !Pending(ts, ev, i, t)) && !Pending(ts, ev, j, t);
      assert Released(ts, n, t) == Released(ts, j, t) + ts[j].C * (r / ts[j].T) + ts[j].C;
    }
  }

  /** Two work-conserving traces without misses idle in the same slots. */
  lemma {:induction false} SameSlack(ts: seq<Task>, ev: seq<int>, ev': seq<int>, t: nat)
    requires Wf(ts) && |ev| == |ev'| && t <= |ev|
    requires Legal(ts, ev) && WorkConserving(ts, ev) && MetBy(ts, ev, |ev| - 1)
    requires Legal(ts, ev') && WorkConserving(ts, ev') && MetBy(ts, ev', |ev| - 1)
    ensures Count(ev, IDLE, 0, t) == Count(ev', IDLE, 0, t)
    ensures forall u :: 0 <= u < t ==> (ev[u] == IDLE <==> ev'[u] == IDLE)
  {
    if t > 0 {
      var u := t - 1;
      SameSlack(ts, ev, ev', u);
      TotalPlusIdle(ev, |ts|, 0, u);
      TotalPlusIdle(ev', |ts|, 0, u);
      Backlog(ts, ev, |ts|, u);
      Backlog(ts, ev', |ts|, u);
    }
  }

  /** Traces without misses that idle in the same slots before `t` agree at `t` on whether work is pending. */
  lemma {:induction false} SameBacklog(ts: seq<Task>, ev: seq<int>, ev': seq<int>, t: nat)
    requires Wf(ts) && t <= |ev| && t <= |ev'|
    requires Legal(ts, ev) && MetBy(ts, ev, t) && Legal(ts, ev') && MetBy(ts, ev', t)
    requires forall u :: 0 <= u < t ==> (ev[u] == IDLE <==> ev'[u] == IDLE)
    ensures (forall i :: 0 <= i < |ts| ==> !Pending(ts, ev, i, t)) <==>
            forall i :: 0 <= i < |ts| ==> !Pending(ts, ev', i, t)
  {
    SameIdle(ev, ev', t);
    TotalPlusIdle(ev, |ts|, 0, t);
    TotalPlusIdle(ev', |ts|, 0, t);
    Backlog(ts, ev, |ts|, t);
    Backlog(ts, ev', |ts|, t);
  }

  lemma {:induction false} SameIdle(ev: seq<int>, ev': seq<int>, t: nat)
    requires t <= |ev| && t <= |ev'| && forall u :: 0 <= u < t ==> (ev[u] == IDLE <==> ev'[u] == IDLE)
    ensures Count(ev, IDLE, 0, t) == Count(ev', IDLE, 0, t)
  {
    if t > 0 {
      SameIdle(ev, ev', t - 1);
    }
  }

  /** The two traces idle in the same ticks. */
  predicate SameSlots(ev: seq<int>, ev': seq<int>)
    requires |ev| == |ev'|
  {
    forall t :: 0 <= t < |ev| ==> (ev[t] == IDLE <==> ev'[t] == IDLE)
  }

  /** A trace that loses a tick does not idle like one that does not. */
  lemma {:induction false} LostSlot(ts: seq<Task>, ev: seq<int>, ev': seq<int>)
    requires Wf(ts) && |ev| == |ev'| && Legal(ts, ev) && MetBy(ts, ev, |ev| - 1)
    requires Legal(ts, ev') && WorkConserving(ts, ev') && MetBy(ts, ev', |ev| - 1)
    ensures SameSlots(ev, ev') ==> WorkConserving(ts, ev)
  {
    if SameSlots(ev, ev') {
      forall t, i | 0 <= t < |ev| && 0 <= i < |ts| && ev[t] == IDLE ensures !Pending(ts, ev, i, t) {
        SameBacklog(ts, ev, ev', t);
      }
    }
  }

  /** Slack does not depend on the protocol: as long as no misses are recorded, two protocols idle in the same ticks
      exactly when both or neither lost a tick. Only EDF ever does, to services with period INT_MAX. */
  lemma {:induction false} SlackExact(p: Protocol, q: Protocol, ts: seq<Task>, n: nat)
    requires Wf(ts) && InRange(ts)
    requires Misses(ts, Events(p, ts, n)) == 0 && Misses(ts, Events(q, ts, n)) == 0
    ensures SameSlots(Events(p, ts, n), Events(q, ts, n)) <==>
            (WorkConserving(ts, Events(p, ts, n)) <==> WorkConserving(ts, Events(q, ts, n)))
  {
    var ev, ev' := Events(p, ts, n), Events(q, ts, n);
    EventsDisciplined(p, ts, n);
    EventsDisciplined(q, ts, n);
    NoMisses(ts, ev);
    NoMisses(ts, ev');
    if WorkConserving(ts, ev) {
      LostSlot(ts, ev', ev);
    }
    if WorkConserving(ts, ev') {
      LostSlot(ts, ev, ev');
      if WorkConserving(ts, ev) {
        SameSlack(ts, ev, ev', n);
      }
    }
  }

  /** All the work there is belongs to services with period INT_MAX. */
  predicate OnlySentinelWork(ts: seq<Task>) {
    && (exists i :: 0 <= i < |ts| && ts[i].C >= 1)
    && forall i :: 0 <= i < |ts| && ts[i].C >= 1 ==> ts[i].T == INT_MAX
  }

  /** Over any number of ticks that an int can count, EDF loses a tick exactly when there is no other work. */
  lemma {:induction false} LosesFirst(ts: seq<Task>, n: nat)
    requires Wf(ts) && InRange(ts) && n <= INT_MAX
    ensures WorkConserving(ts, Events(EDF, ts, n)) <==> n == 0 || !OnlySentinelWork(ts)
  {
    var ev := Events(EDF, ts, n);
    EventsDisciplined(EDF, ts, n);
    if n > 0 {
      forall i | 0 <= i < |ts|
        ensures Pending(ts, ev, i, 0) <==> ts[i].C >= 1
        ensures Pending(ts, ev, i, 0) && ev[0] == IDLE ==> ts[i].T == INT_MAX
        ensures ev[0] == i ==> ts[i].C >= 1 && ts[i].T != INT_MAX
      {
        ChoiceAt(EDF, ts, n, 0, i);
        CountNone(ev, i, 0, 0);
      }
      forall t, i | 0 <= t < n && 0 <= i < |ts| && ev[t] == IDLE && Pending(ts, ev, i, t) ensures t == 0 {
        SmallRemainder(t);
      }
    }
  }

  lemma {:induction false} SmallRemainder(t: nat)
    requires t < INT_MAX && t % INT_MAX == 0
    ensures t == 0
  {
  }

  /** So within the range of an int EDF, LLF and RM idle in the same ticks while none misses, unless one of two
      different protocols is EDF and all the work there is belongs to services with period INT_MAX. */
  lemma {:induction false} SlackIndependent(p: Protocol, q: Protocol, ts: seq<Task>, n: nat)
    requires Wf(ts) && InRange(ts) && n <= INT_MAX
    requires Misses(ts, Events(p, ts, n)) == 0 && Misses(ts, Events(q, ts, n)) == 0
    ensures SameSlots(Events(p, ts, n), Events(q, ts, n)) <==>
            n == 0 || (p == EDF <==> q == EDF) || !OnlySentinelWork(ts)
  {
    SlackExact(p, q, ts, n);
    LosesFirst(ts, n);
    EventsDisciplined(p, ts, n);
    EventsDisciplined(q, ts, n);
  }
}
