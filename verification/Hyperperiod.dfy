/** A hyperperiod decides everything: the run of any protocol repeats, misses included. */
module Hyperperiod {
  import opened Trace
  import opened Utilization
  import opened Schedule
  import opened Iteration

  /** From one choice to the next. */
  function Cycle(protocol: Protocol): seq<Service> -> seq<Service> {
    ss => Expire(Advance(ss, Choose(protocol, ss, |ss|)))
  }

  /** The misses recorded between them. */
  function NewMisses(protocol: Protocol): seq<Service> -> nat {
    ss => MissesNow(Advance(ss, Choose(protocol, ss, |ss|)))
  }

  lemma {:induction false} StartIsReady(ts: seq<Task>)
    requires Wf(ts)
    ensures Expire(Start(ts)) == Start(ts) && MissesNow(Start(ts)) == 0
  {
    MissesNowZero(Start(ts));
  }

  lemma {:induction false} EventsStep(protocol: Protocol, ts: seq<Task>, n: nat)
    ensures var ev, next := Events(protocol, ts, n), Events(protocol, ts, n + 1);
            && next == ev + [Choose(protocol, Ready(ts, ev), |ts|)] && next[..n] == ev
            && After(ts, next) == Advance(Ready(ts, ev), Choose(protocol, Ready(ts, ev), |ts|))
            && Misses(ts, next) == Misses(ts, ev) + MissesNow(After(ts, ev))
  {
    var ev, next := Events(protocol, ts, n), Events(protocol, ts, n + 1);
    assert next == ev + [Choose(protocol, Ready(ts, ev), |ts|)];
    assert next[..n] == ev;
  }

  lemma {:induction false} ReadyStep(protocol: Protocol, ts: seq<Task>, n: nat)
    ensures Ready(ts, Events(protocol, ts, n + 1)) == Cycle(protocol)(Ready(ts, Events(protocol, ts, n)))
  {
  }

  lemma {:induction false} MissesStep(protocol: Protocol, ts: seq<Task>, n: nat)
    ensures Misses(ts, Events(protocol, ts, n + 2)) ==
            Misses(ts, Events(protocol, ts, n + 1)) + NewMisses(protocol)(Ready(ts, Events(protocol, ts, n)))
  {
    EventsStep(protocol, ts, n);
    EventsStep(protocol, ts, n + 1);
  }

  lemma {:induction false} FirstTick(protocol: Protocol, ts: seq<Task>)
    requires Wf(ts)
    ensures Ready(ts, Events(protocol, ts, 0)) == Start(ts) && Misses(ts, Events(protocol, ts, 1)) == 0
  {
    EventsStep(protocol, ts, 0);
    StartIsReady(ts);
    assert After(ts, Events(protocol, ts, 0)) == Start(ts);
  }

  /** A run is an iteration of one state transition ... */
  lemma {:induction false} ReadyIterates(protocol: Protocol, ts: seq<Task>, n: nat)
    requires Wf(ts)
    ensures Ready(ts, Events(protocol, ts, n)) == Iterate(Cycle(protocol), Start(ts), n)
  {
    if n == 0 {
      FirstTick(protocol, ts);
    } else {
      ReadyIterates(protocol, ts, n - 1);
      ReadyStep(protocol, ts, n - 1);
    }
  }

  /** ... and its misses are the sum of what each transition records. */
  lemma {:induction false} MissesIterate(protocol: Protocol, ts: seq<Task>, n: nat)
    requires Wf(ts)
    ensures Misses(ts, Events(protocol, ts, n + 1)) == SumAlong(Cycle(protocol), NewMisses(protocol), Start(ts), n)
  {
    if n == 0 {
      FirstTick(protocol, ts);
    } else {
      MissesIterate(protocol, ts, n - 1);
      MissesStep(protocol, ts, n - 1);
      ReadyIterates(protocol, ts, n - 1);
    }
  }

  /** The same with the transition and the observation left abstract. */
  lemma {:induction false} RunIteration(protocol: Protocol, ts: seq<Task>)
    returns (f: seq<Service> -> seq<Service>, g: seq<Service> -> nat)
    requires Wf(ts)
    ensures forall n: nat {:trigger Iterate(f, Start(ts), n)} ::
              Ready(ts, Events(protocol, ts, n)) == Iterate(f, Start(ts), n)
    ensures forall n: nat {:trigger SumAlong(f, g, Start(ts), n)} ::
              Misses(ts, Events(protocol, ts, n + 1)) == SumAlong(f, g, Start(ts), n)
  {
    f, g := Cycle(protocol), NewMisses(protocol);
    forall n: nat ensures Ready(ts, Events(protocol, ts, n)) == Iterate(f, Start(ts), n) {
      ReadyIterates(protocol, ts, n);
    }
    forall n: nat ensures Misses(ts, Events(protocol, ts, n + 1)) == SumAlong(f, g, Start(ts), n) {
      MissesIterate(protocol, ts, n);
    }
  }

  /** After a hyperperiod the expiry check restores the initial services, whatever ran and whatever was missed. */
  lemma {:induction false} ReadyAtHyper(ts: seq<Task>, ev: seq<int>)
    requires Wf(ts) && IsHyper(ts, |ev|)
    ensures Ready(ts, ev) == Start(ts)
  {
    forall i | 0 <= i < |ts| ensures Ready(ts, ev)[i] == Start(ts)[i] {
      ReadyState(ts, ev, i);
      ReleaseUnique(ts[i].T, |ev|, |ev|);
    }
  }

  /** events[t + H] == events[t]. */
  lemma {:induction false} EventsRepeat(protocol: Protocol, ts: seq<Task>, H: nat, n: nat, t: nat)
    requires Wf(ts) && IsHyper(ts, H) && t + H < n
    ensures Events(protocol, ts, n)[t + H] == Events(protocol, ts, n)[t]
  {
    EventAt(protocol, ts, n, t);
    EventAt(protocol, ts, n, t + H);
    ReadyRepeats(protocol, ts, H, t);
  }

  lemma {:induction false} ReadyRepeats(protocol: Protocol, ts: seq<Task>, H: nat, t: nat)
    requires Wf(ts) && IsHyper(ts, H)
    ensures Ready(ts, Events(protocol, ts, t + H)) == Ready(ts, Events(protocol, ts, t))
  {
    var f, g := RunIteration(protocol, ts);
    ReadyAtHyper(ts, Events(protocol, ts, H));
    assert Iterate(f, Start(ts), H) == Start(ts);
    IterateRepeats(f, Start(ts), H, t);
  }

  /** Each further hyperperiod records as many misses as the first, its end included. */
  lemma {:induction false} MissesRepeat(protocol: Protocol, ts: seq<Task>, H: nat, n: nat)
    requires Wf(ts) && IsHyper(ts, H)
    ensures Misses(ts, Events(protocol, ts, n + H + 1)) ==
            Misses(ts, Events(protocol, ts, n + 1)) + Misses(ts, Events(protocol, ts, H + 1))
  {
    var f, g := RunIteration(protocol, ts);
    var a, b, c := SumAlong(f, g, Start(ts), n + H), SumAlong(f, g, Start(ts), n), SumAlong(f, g, Start(ts), H);
    assert a == b + c by {
      ReadyAtHyper(ts, Events(protocol, ts, H));
      assert Iterate(f, Start(ts), H) == Start(ts);
      SumRepeats(f, g, Start(ts), H, n);
    }
  }

  /** A run over one hyperperiod and the expiry check at its end decides every run. */
  lemma {:induction false} OnePeriodDecides(protocol: Protocol, ts: seq<Task>, H: nat, n: nat)
    requires Wf(ts) && IsHyper(ts, H) && Misses(ts, Events(protocol, ts, H + 1)) == 0
    ensures Misses(ts, Events(protocol, ts, n)) == 0
  {
    if n > 0 {
      var f, g := RunIteration(protocol, ts);
      ReadyAtHyper(ts, Events(protocol, ts, H));
      assert Iterate(f, Start(ts), H) == Start(ts);
      CleanRound(f, g, Start(ts), H, n - 1);
    }
  }

  lemma {:induction false} MissesGrow(protocol: Protocol, ts: seq<Task>, m: nat, n: nat)
    requires Wf(ts) && m <= n
    ensures Misses(ts, Events(protocol, ts, m + 1)) <= Misses(ts, Events(protocol, ts, n + 1))
  {
    var f, g := RunIteration(protocol, ts);
    SumGrows(f, g, Start(ts), m, n);
  }

  lemma {:induction false} CleanPrefix(protocol: Protocol, ts: seq<Task>, m: nat, n: nat)
    requires Wf(ts) && m < n && Misses(ts, Events(protocol, ts, n)) == 0
    ensures Misses(ts, Events(protocol, ts, m + 1)) == 0
  {
    MissesGrow(protocol, ts, m, n - 1);
  }

  /** So the two hyperperiods the source runs report no miss if and only if no run ever does. */
  lemma {:induction false} TwoPeriodsDecide(protocol: Protocol, ts: seq<Task>, H: nat)
    requires Wf(ts) && IsHyper(ts, H)
    ensures Misses(ts, Events(protocol, ts, 2 * H)) == 0 <==> NeverMisses(protocol, ts)
  {
    if Misses(ts, Events(protocol, ts, 2 * H)) == 0 {
      forall n: nat ensures Misses(ts, Events(protocol, ts, n)) == 0 {
        CleanPrefix(protocol, ts, H, 2 * H);
        OnePeriodDecides(protocol, ts, H, n);
      }
    }
  }
}
