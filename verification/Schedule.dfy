/** What the scheduling loop computes: the state transition of one tick, the choice each protocol makes,
    and the trace and the number of misses of a whole run. */
module Schedule {
  import opened Trace
  import opened Optimal

  datatype Protocol = RM | EDF | LLF

  /** The countdown `Deadline` and the counter `Runtime` belong to the current job. */
  datatype Service = Service(Tperiod: int, Cruntime: int, Deadline: int, Runtime: int)

  const INT_MAX: int := 0x7fff_ffff

  predicate Running(x: Service) {
    x.Runtime < x.Cruntime
  }

  /** What each protocol minimises; RM takes the first running service, so all keys are equal. */
  function Key(protocol: Protocol, x: Service): int {
    match protocol
    case RM => 0
    case EDF => x.Deadline
    case LLF => x.Deadline - (x.Cruntime - x.Runtime)
  }

  // ----- one tick -----

  function ExpireOne(x: Service): Service {
    if x.Deadline == 0 then x.(Deadline := x.Tperiod, Runtime := 0) else x
  }

  function Expire(ss: seq<Service>): (r: seq<Service>)
    ensures |r| == |ss|
  {
    seq(|ss|, i requires 0 <= i < |ss| => ExpireOne(ss[i]))
  }

  predicate MissOne(x: Service) {
    x.Deadline == 0 && x.Runtime != x.Cruntime
  }

  /** Misses that one expiry check records. */
  function MissesNow(ss: seq<Service>): nat {
    if ss == [] then 0 else MissesNow(ss[..|ss| - 1]) + (if MissOne(ss[|ss| - 1]) then 1 else 0)
  }

  /** One tick of a service: it runs if it was chosen, and its deadline comes closer. */
  function AdvanceOne(x: Service, chosen: bool): Service {
    x.(Runtime := if chosen then x.Runtime + 1 else x.Runtime, Deadline := x.Deadline - 1)
  }

  function Advance(ss: seq<Service>, p: int): (r: seq<Service>)
    ensures |r| == |ss|
  {
    seq(|ss|, i requires 0 <= i < |ss| => AdvanceOne(ss[i], i == p))
  }

  /** `p` is the choice among the first n services: running, least key, least index among equals.
      Nothing is chosen if no running service has a key below INT_MAX. */
  predicate Chosen(protocol: Protocol, ss: seq<Service>, n: nat, p: int)
    requires n <= |ss|
  {
    if p == IDLE then
      forall i :: 0 <= i < n && Running(ss[i]) ==> Key(protocol, ss[i]) >= INT_MAX
    else
      && 0 <= p < n && Running(ss[p]) && Key(protocol, ss[p]) < INT_MAX
      && forall i :: 0 <= i < n && Running(ss[i]) ==>
           Key(protocol, ss[p]) < Key(protocol, ss[i]) || (Key(protocol, ss[p]) == Key(protocol, ss[i]) && p <= i)
  }

  function Choose(protocol: Protocol, ss: seq<Service>, n: nat): (p: int)
    requires n <= |ss|
    ensures Chosen(protocol, ss, n, p)
  {
    if n == 0 then IDLE else
      var b := Choose(protocol, ss, n - 1);
      var least := if b == IDLE then INT_MAX else Key(protocol, ss[b]);
      if Running(ss[n - 1]) && Key(protocol, ss[n - 1]) < least then n - 1 else b
  }

  // ----- whole runs -----

  function StartOne(task: Task): Service {
    Service(task.T, task.C, task.T, 0)
  }

  function Start(ts: seq<Task>): (ss: seq<Service>)
    ensures |ss| == |ts|
  {
    seq(|ts|, i requires 0 <= i < |ts| => StartOne(ts[i]))
  }

  /** Service i at the top of the loop, after the ticks recorded in `ev`. */
  function ServiceAfter(task: Task, i: nat, ev: seq<int>): Service {
    if ev == [] then StartOne(task) else
      var n := |ev| - 1;
      AdvanceOne(ExpireOne(ServiceAfter(task, i, ev[..n])), ev[n] == i)
  }

  /** All services at the top of the loop. */
  function After(ts: seq<Task>, ev: seq<int>): (ss: seq<Service>)
    ensures |ss| == |ts|
  {
    seq(|ts|, i requires 0 <= i < |ts| => ServiceAfter(ts[i], i, ev))
  }

  /** The services after the expiry check, when the protocol chooses. */
  function Ready(ts: seq<Task>, ev: seq<int>): (ss: seq<Service>)
    ensures |ss| == |ts|
  {
    Expire(After(ts, ev))
  }

  /** The trace of n ticks under a protocol. */
  function Events(protocol: Protocol, ts: seq<Task>, n: nat): (ev: seq<int>)
    ensures |ev| == n
  {
    if n == 0 then [] else
      var ev := Events(protocol, ts, n - 1);
      ev + [Choose(protocol, Ready(ts, ev), |ts|)]
  }

  /** The misses that a run with the given trace records. */
  function Misses(ts: seq<Task>, ev: seq<int>): nat {
    if ev == [] then 0 else
      Misses(ts, ev[..|ev| - 1]) + MissesNow(After(ts, ev[..|ev| - 1]))
  }

  /** What the source stores in STATS_buf: the key of a running service, -1 otherwise; RM stores nothing. */
  function Stat(protocol: Protocol, x: Service): int {
    if protocol == RM then 0 else if Running(x) then Key(protocol, x) else -1
  }

  /** What a run stores for tick t and service s. */
  function StatAt(protocol: Protocol, ts: seq<Task>, t: nat, s: nat): int
    requires s < |ts|
  {
    Stat(protocol, Ready(ts, Events(protocol, ts, t))[s])
  }

  // ----- the state in terms of the trace -----

  lemma {:induction false} ReleaseStep(T: int, t: nat)
    requires T >= 1
    ensures Release(T, t + 1) == if Release(T, t) + T == t + 1 then t + 1 else Release(T, t)
  {
    ReleaseNext(T, t);
    ReleaseUnique(T, t + 1, if Release(T, t) + T == t + 1 then t + 1 else Release(T, t));
  }

  /** After the expiry check at tick n, Deadline counts down to the end of the current window and
      Runtime counts the ticks the current job has run. No assumption on how `ev` was chosen. */
  lemma {:induction false} ReadyState(ts: seq<Task>, ev: seq<int>, i: nat)
    requires Wf(ts) && i < |ts|
    ensures Ready(ts, ev)[i] == Service(ts[i].T, ts[i].C, AbsDeadline(ts, i, |ev|) - |ev|,
                                        Count(ev, i, Release(ts[i].T, |ev|), |ev|))
    decreases |ev|
  {
    ReleaseUnique(ts[i].T, 0, 0);
    if ev != [] {
      AfterState(ts, ev, i);
      ReleaseStep(ts[i].T, |ev| - 1);
    }
  }

  /** The state before the expiry check still shows the job of the previous tick. */
  lemma {:induction false} AfterState(ts: seq<Task>, ev: seq<int>, i: nat)
    requires Wf(ts) && i < |ts| && ev != []
    ensures After(ts, ev)[i] == Service(ts[i].T, ts[i].C, AbsDeadline(ts, i, |ev| - 1) - |ev|,
                                        Count(ev, i, Release(ts[i].T, |ev| - 1), |ev|))
    decreases |ev|, 0
  {
    var n := |ev| - 1;
    ReadyState(ts, ev[..n], i);
    CountSame(ev[..n], ev, i, Release(ts[i].T, n), n);
  }

  /** A period of zero or less never comes round: the countdown runs into the negative numbers, the runtime is never
      reset, and a miss is recorded at most once, before the first tick. */
  lemma {:induction false} NeverComesRound(task: Task, i: nat, ev: seq<int>)
    requires task.T <= 0
    ensures ServiceAfter(task, i, ev) == Service(task.T, task.C, task.T - |ev|, Count(ev, i, 0, |ev|))
    ensures MissOne(ServiceAfter(task, i, ev)) <==> ev == [] && task.T == 0 && task.C != 0
  {
    if ev != [] {
      var n := |ev| - 1;
      NeverComesRound(task, i, ev[..n]);
      CountSame(ev[..n], ev, i, 0, n);
    }
  }

  lemma {:induction false} EventsPrefix(protocol: Protocol, ts: seq<Task>, m: nat, n: nat)
    requires m <= n
    ensures Events(protocol, ts, n)[..m] == Events(protocol, ts, m)
    decreases n
  {
    if m < n {
      EventsPrefix(protocol, ts, m, n - 1);
      var e := Events(protocol, ts, n - 1);
      var c := Choose(protocol, Ready(ts, e), |ts|);
      assert Events(protocol, ts, n) == e + [c];
      assert (e + [c])[..m] == e[..m];
    }
  }

  lemma {:induction false} EventAt(protocol: Protocol, ts: seq<Task>, n: nat, t: nat)
    requires t < n
    ensures Events(protocol, ts, n)[..t] == Events(protocol, ts, t)
    ensures Events(protocol, ts, n)[t] == Choose(protocol, Ready(ts, Events(protocol, ts, t)), |ts|)
  {
    EventsPrefix(protocol, ts, t, n);
    EventsPrefix(protocol, ts, t + 1, n);
    assert Events(protocol, ts, n)[t] == Events(protocol, ts, n)[..t + 1][t];
  }

  /** Running and Key of a ready service, in terms of the trace. */
  lemma {:induction false} ReadyFacts(ts: seq<Task>, ev: seq<int>, t: nat, i: nat)
    requires Wf(ts) && i < |ts| && t <= |ev|
    ensures var x := Ready(ts, ev[..t])[i];
            && Running(x) == Pending(ts, ev, i, t)
            && Key(EDF, x) == AbsDeadline(ts, i, t) - t
            && Key(LLF, x) == Laxity(ts, ev, i, t)
  {
    ReadyState(ts, ev[..t], i);
    CountSame(ev[..t], ev, i, Release(ts[i].T, t), t);
  }

  /** The stored table, in terms of the trace of the run: the time to the deadline (EDF) or the laxity (LLF) of the
      services with work left, -1 for the others. */
  lemma {:induction false} StatExact(protocol: Protocol, ts: seq<Task>, n: nat, t: nat, s: nat)
    requires Wf(ts) && t < n && s < |ts|
    ensures var ev := Events(protocol, ts, n);
            StatAt(protocol, ts, t, s) ==
            match protocol
            case RM => 0
            case EDF => if Pending(ts, ev, s, t) then AbsDeadline(ts, s, t) - t else -1
            case LLF => if Pending(ts, ev, s, t) then Laxity(ts, ev, s, t) else -1
  {
    EventAt(protocol, ts, n, t);
    ReadyFacts(ts, Events(protocol, ts, n), t, s);
  }

  /** Periods fit in an int. */
  predicate InRange(ts: seq<Task>) {
    forall i :: 0 <= i < |ts| ==> ts[i].T <= INT_MAX
  }

  /** The countdown of service i stands at INT_MAX at tick t: its period is INT_MAX and t is one of its releases. */
  predicate AtSentinel(ts: seq<Task>, i: int, t: nat)
    requires 0 <= i < |ts|
  {
    ts[i].T == INT_MAX && t % INT_MAX == 0
  }

  lemma {:induction false} SentinelKey(ts: seq<Task>, i: int, t: nat)
    requires Wf(ts) && InRange(ts) && 0 <= i < |ts|
    ensures AbsDeadline(ts, i, t) - t >= INT_MAX <==> AtSentinel(ts, i, t)
  {
    if AtSentinel(ts, i, t) {
      ReleaseUnique(ts[i].T, t, t);
    }
  }

  /** The choice of tick t in terms of the trace: who may run, when the tick idles, and who is preferred. EDF does not
      see a service whose countdown stands at the sentinel; nothing else pending is ever left out. */
  lemma {:induction false} ChoiceAt(protocol: Protocol, ts: seq<Task>, n: nat, t: nat, i: nat)
    requires Wf(ts) && InRange(ts) && t < n && i < |ts|
    ensures var ev := Events(protocol, ts, n);
            && (ev[t] == IDLE || (0 <= ev[t] < |ts| && Pending(ts, ev, ev[t], t)))
            && (Pending(ts, ev, i, t) && ev[t] == IDLE ==> protocol == EDF && AtSentinel(ts, i, t))
            && (protocol == EDF && ev[t] != IDLE ==> !AtSentinel(ts, ev[t], t))
            && (Pending(ts, ev, i, t) && ev[t] != IDLE ==>
                  match protocol
                  case RM => ev[t] <= i
                  case EDF => AbsDeadline(ts, ev[t], t) <= AbsDeadline(ts, i, t)
                  case LLF => Laxity(ts, ev, ev[t], t) <= Laxity(ts, ev, i, t))
  {
    var ev := Events(protocol, ts, n);
    EventAt(protocol, ts, n, t);
    ReadyFacts(ts, ev, t, i);
    SentinelKey(ts, i, t);
    if ev[t] != IDLE {
      ReadyFacts(ts, ev, t, ev[t]);
      SentinelKey(ts, ev[t], t);
    }
  }

  /** Every protocol only runs services with work left. None idles while there is one, except EDF over services of
      period INT_MAX at their release. */
  lemma {:induction false} EventsDisciplined(protocol: Protocol, ts: seq<Task>, n: nat)
    requires Wf(ts) && InRange(ts)
    ensures Legal(ts, Events(protocol, ts, n)) && ConservingBut(ts, Events(protocol, ts, n), INT_MAX)
    ensures protocol != EDF ==> WorkConserving(ts, Events(protocol, ts, n))
  {
    var ev := Events(protocol, ts, n);
    forall t | 0 <= t < n ensures ev[t] == IDLE || (0 <= ev[t] < |ts| && Pending(ts, ev, ev[t], t)) {
      EventAt(protocol, ts, n, t);
      if ev[t] != IDLE {
        ChoiceAt(protocol, ts, n, t, ev[t]);
      }
    }
    forall t, i | 0 <= t < n && 0 <= i < |ts| && ev[t] == IDLE && Pending(ts, ev, i, t)
      ensures protocol == EDF && AtSentinel(ts, i, t)
    {
      ChoiceAt(protocol, ts, n, t, i);
    }
  }

  // ----- misses in terms of the trace -----

  lemma {:induction false} MissesNowZero(ss: seq<Service>)
    ensures MissesNow(ss) == 0 <==> forall i :: 0 <= i < |ss| ==> !MissOne(ss[i])
  {
    if ss != [] {
      var s := ss[..|ss| - 1];
      MissesNowZero(s);
      assert forall i :: 0 <= i < |s| ==> s[i] == ss[i];
    }
  }

  /** The expiry check at tick n records a miss for exactly the jobs that are due at n and short. */
  lemma {:induction false} MissIsShortJob(ts: seq<Task>, ev: seq<int>, i: nat)
    requires Wf(ts) && i < |ts|
    ensures MissOne(After(ts, ev)[i]) <==> DueAt(ts, i, |ev|) && !Complete(ts, ev, i, |ev|)
  {
    var T := ts[i].T;
    if ev != [] {
      var n := |ev|;
      AfterState(ts, ev, i);
      var r := Release(T, n - 1);
      if DueAt(ts, i, n) {
        ReleaseUnique(T, n, n);
        ReleaseNext(T, n);
        ReleaseUnique(T, n - 1, n - T);
      } else {
        ReleaseNext(T, n - 1);
      }
    }
  }

  /** The expired services among the first n that are short. */
  function ShortServices(ss: seq<Service>, n: nat): (r: set<nat>)
    requires n <= |ss|
  {
    set i: nat | i < n && MissOne(ss[i])
  }

  /** An expiry check counts every one of them. */
  lemma {:induction false} MissesCounted(ss: seq<Service>, n: nat)
    requires n <= |ss|
    ensures MissesNow(ss[..n]) == |ShortServices(ss, n)|
  {
    if n > 0 {
      MissesCounted(ss, n - 1);
      assert ss[..n][..n - 1] == ss[..n - 1];
      var fewer := ShortServices(ss, n - 1);
      assert ShortServices(ss, n) == if MissOne(ss[n - 1]) then fewer + {n - 1} else fewer;
    }
  }

  /** The jobs due at d of the first n services that did not receive their run time. */
  ghost function ShortJobs(ts: seq<Task>, ev: seq<int>, n: nat, d: nat): (r: set<(nat, nat)>)
    requires Wf(ts) && n <= |ts| && d <= |ev|
  {
    set i: nat | i < n && DueAt(ts, i, d) && !Complete(ts, ev, i, d) :: (i, d)
  }

  lemma {:induction false} ShortJobsCounted(ts: seq<Task>, ev: seq<int>, n: nat, d: nat)
    requires Wf(ts) && n <= |ts| && d <= |ev|
    ensures MissesNow(After(ts, ev[..d])[..n]) == |ShortJobs(ts, ev, n, d)|
  {
    if n > 0 {
      var ss, i := After(ts, ev[..d]), n - 1;
      ShortJobsCounted(ts, ev, i, d);
      assert ss[..n][..i] == ss[..i];
      MissIsShortJob(ts, ev[..d], i);
      if DueAt(ts, i, d) {
        CompletePrefix(ts, ev, d, i, d);
      }
      var fewer := ShortJobs(ts, ev, i, d);
      assert ShortJobs(ts, ev, n, d) == if MissOne(ss[i]) then fewer + {(i, d)} else fewer;
    }
  }

  /** The jobs, as pairs of service and deadline, that are due before tick n and did not receive their run time. */
  ghost function MissedJobs(ts: seq<Task>, ev: seq<int>, n: nat): (r: set<(nat, nat)>)
    requires Wf(ts) && n <= |ev|
  {
    set i: nat, d: nat | i < |ts| && d < n && DueAt(ts, i, d) && !Complete(ts, ev, i, d) :: (i, d)
  }

  /** A run records every missed job exactly once. */
  lemma {:induction false} MissesExact(ts: seq<Task>, ev: seq<int>, n: nat)
    requires Wf(ts) && n <= |ev|
    ensures Misses(ts, ev[..n]) == |MissedJobs(ts, ev, n)|
  {
    if n > 0 {
      var d := n - 1;
      MissesExact(ts, ev, d);
      assert ev[..n][..d] == ev[..d];
      ShortJobsCounted(ts, ev, |ts|, d);
      assert After(ts, ev[..d])[..|ts|] == After(ts, ev[..d]);
      var before, now := MissedJobs(ts, ev, d), ShortJobs(ts, ev, |ts|, d);
      assert MissedJobs(ts, ev, n) == before + now;
      assert before !! now;
    }
  }

  lemma {:induction false} CompletePrefix(ts: seq<Task>, ev: seq<int>, k: nat, i: int, d: int)
    requires Wf(ts) && DueAt(ts, i, d) && d <= k <= |ev|
    ensures Complete(ts, ev[..k], i, d) == Complete(ts, ev, i, d)
  {
    CountSame(ev[..k], ev, i, d - ts[i].T, d);
  }

  lemma {:induction false} MetByPrefix(ts: seq<Task>, ev: seq<int>, k: nat, n: int)
    requires Wf(ts) && n <= k <= |ev|
    ensures MetBy(ts, ev[..k], n) <==> MetBy(ts, ev, n)
  {
    forall i, d | DueAt(ts, i, d) && d <= n ensures Complete(ts, ev[..k], i, d) == Complete(ts, ev, i, d) {
      CompletePrefix(ts, ev, k, i, d);
    }
  }

  /** The expiry check at tick n records nothing exactly when the jobs due at n received their run time. */
  lemma {:induction false} CheckIsClean(ts: seq<Task>, ev: seq<int>)
    requires Wf(ts)
    ensures MissesNow(After(ts, ev)) == 0 <==> forall i :: DueAt(ts, i, |ev|) ==> Complete(ts, ev, i, |ev|)
  {
    var ss := After(ts, ev);
    MissesNowZero(ss);
    forall i | 0 <= i < |ts| ensures MissOne(ss[i]) <==> DueAt(ts, i, |ev|) && !Complete(ts, ev, i, |ev|) {
      MissIsShortJob(ts, ev, i);
    }
  }

  lemma {:induction false} MetByStep(ts: seq<Task>, ev: seq<int>)
    requires Wf(ts)
    ensures MetBy(ts, ev, |ev|) <==>
            MetBy(ts, ev, |ev| - 1) && forall i :: DueAt(ts, i, |ev|) ==> Complete(ts, ev, i, |ev|)
  {
  }

  /** A run of n ticks records no miss exactly when every job due before tick n received its run time. */
  lemma {:induction false} NoMisses(ts: seq<Task>, ev: seq<int>)
    requires Wf(ts)
    ensures Misses(ts, ev) == 0 <==> MetBy(ts, ev, |ev| - 1)
    decreases |ev|
  {
    if ev != [] {
      var p := ev[..|ev| - 1];
      NoMisses(ts, p);
      CheckIsClean(ts, p);
      MetByStep(ts, p);
      MetByPrefix(ts, ev, |p|, |p|);
    }
  }

  /** Never a miss, over any number of ticks. */
  ghost predicate NeverMisses(protocol: Protocol, ts: seq<Task>) {
    forall n: nat :: Misses(ts, Events(protocol, ts, n)) == 0
  }

  lemma {:induction false} RunMeets(protocol: Protocol, ts: seq<Task>, n: nat)
    requires Wf(ts)
    ensures Misses(ts, Events(protocol, ts, n + 1)) == 0 <==> MetBy(ts, Events(protocol, ts, n), n)
  {
    var ev := Events(protocol, ts, n + 1);
    NoMisses(ts, ev);
    EventsPrefix(protocol, ts, n, n + 1);
    MetByPrefix(ts, ev, n, n);
  }

  lemma {:induction false} NeverMissesMeets(protocol: Protocol, ts: seq<Task>, n: nat)
    requires Wf(ts) && NeverMisses(protocol, ts)
    ensures MetBy(ts, Events(protocol, ts, n), n)
  {
    RunMeets(protocol, ts, n);
  }

  lemma {:induction false} MeetsNeverMisses(protocol: Protocol, ts: seq<Task>, n: nat)
    requires Wf(ts) && (n > 0 ==> MetBy(ts, Events(protocol, ts, n - 1), n - 1))
    ensures Misses(ts, Events(protocol, ts, n)) == 0
  {
    if n > 0 {
      RunMeets(protocol, ts, n - 1);
    }
  }
}
