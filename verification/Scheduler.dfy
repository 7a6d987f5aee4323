/** The scheduling loop itself: services and events are arrays updated in place, as in the source. */
module Scheduler {
  import opened Trace
  import opened Utilization
  import opened Schedule

  /** A test case: the periods and the run times of its services. */
  function TaskSet(periods: seq<int>, wcets: seq<int>): (ts: seq<Task>)
    requires |periods| == |wcets|
    ensures |ts| == |periods|
  {
    seq(|periods|, i requires 0 <= i < |periods| => Task(periods[i], wcets[i]))
  }

  /** The chosen service runs for one tick. */
  function RunOne(ss: seq<Service>, p: int): (r: seq<Service>)
    ensures |r| == |ss|
  {
    if 0 <= p < |ss| then ss[p := ss[p].(Runtime := ss[p].Runtime + 1)] else ss
  }

  lemma {:induction false} ChosenUnique(protocol: Protocol, ss: seq<Service>, n: nat, p: int)
    requires n <= |ss| && Chosen(protocol, ss, n, p)
    ensures p == Choose(protocol, ss, n)
  {
  }

  /** Check for deadline expiration, reset runtime, count the misses. */
  method CheckDeadlines(services: array<Service>) returns (missed: nat)
    modifies services
    ensures services[..] == Expire(old(services[..]))
    ensures missed == MissesNow(old(services[..]))
  {
    ghost var before := services[..];
    missed := 0;
    for s := 0 to services.Length
      invariant forall i :: 0 <= i < s ==> services[i] == ExpireOne(before[i])
      invariant forall i :: s <= i < services.Length ==> services[i] == before[i]
      invariant missed == MissesNow(before[..s])
    {
      assert before[..s + 1][..s] == before[..s];
      if services[s].Deadline == 0 {
        services[s] := services[s].(Deadline := services[s].Tperiod);
        if services[s].Runtime == services[s].Cruntime {
          services[s] := services[s].(Runtime := 0);
        } else {
          missed := missed + 1;
          services[s] := services[s].(Runtime := 0);
        }
      }
    }
    assert before[..services.Length] == before;
  }

  /** Run the first service that still needs runtime. */
  method RunRm(services: array<Service>) returns (ran: int)
    modifies services
    ensures ran == Choose(RM, old(services[..]), services.Length)
    ensures services[..] == RunOne(old(services[..]), ran)
  {
    ghost var before := services[..];
    ran := IDLE;
    for s := 0 to services.Length
      invariant ran == IDLE && services[..] == before
      invariant forall i :: 0 <= i < s ==> !Running(before[i])
    {
      if services[s].Runtime < services[s].Cruntime {
        services[s] := services[s].(Runtime := services[s].Runtime + 1);
        ran := s;
        break;
      }
    }
    ChosenUnique(RM, before, services.Length, ran);
  }

  /** Run the service with the earliest deadline; `stats` records the deadlines of the running services. */
  method RunEdf(services: array<Service>, stats: array2<int>, t: nat) returns (ran: int)
    requires t < stats.Length0 && services.Length == stats.Length1
    modifies services, stats
    ensures ran == Choose(EDF, old(services[..]), services.Length)
    ensures services[..] == RunOne(old(services[..]), ran)
    ensures forall u, s :: 0 <= u < stats.Length0 && 0 <= s < stats.Length1 ==>
              stats[u, s] == if u == t then Stat(EDF, old(services[..])[s]) else old(stats[u, s])
  {
    ghost var before := services[..];
    ran := -1;
    var earliestDeadline := INT_MAX;
    for s := 0 to services.Length
      invariant services[..] == before && ran == Choose(EDF, before, s)
      invariant earliestDeadline == if ran == IDLE then INT_MAX else Key(EDF, before[ran])
      invariant forall u, i :: 0 <= u < stats.Length0 && 0 <= i < stats.Length1 ==>
                  stats[u, i] == if u == t && i < s then Stat(EDF, before[i]) else old(stats[u, i])
    {
      var running := services[s].Runtime < services[s].Cruntime;
      if running {
        if services[s].Deadline < earliestDeadline {
          earliestDeadline := services[s].Deadline;
          ran := s;
        }
        stats[t, s] := services[s].Deadline;
      } else {
        stats[t, s] := -1;
      }
    }
    if ran != -1 {
      services[ran] := services[ran].(Runtime := services[ran].Runtime + 1);
    }
  }

  /** Run the service with the least laxity; `stats` records the laxities of the running services. */
  method RunLlf(services: array<Service>, stats: array2<int>, t: nat) returns (ran: int)
    requires t < stats.Length0 && services.Length == stats.Length1
    modifies services, stats
    ensures ran == Choose(LLF, old(services[..]), services.Length)
    ensures services[..] == RunOne(old(services[..]), ran)
    ensures forall u, s :: 0 <= u < stats.Length0 && 0 <= s < stats.Length1 ==>
              stats[u, s] == if u == t then Stat(LLF, old(services[..])[s]) else old(stats[u, s])
  {
    ghost var before := services[..];
    ran := -1;
    var leastLaxity := INT_MAX;
    for s := 0 to services.Length
      invariant services[..] == before && ran == Choose(LLF, before, s)
      invariant leastLaxity == if ran == IDLE then INT_MAX else Key(LLF, before[ran])
      invariant forall u, i :: 0 <= u < stats.Length0 && 0 <= i < stats.Length1 ==>
                  stats[u, i] == if u == t && i < s then Stat(LLF, before[i]) else old(stats[u, i])
    {
      var running := services[s].Runtime < services[s].Cruntime;
      if running {
        var laxity := services[s].Deadline - (services[s].Cruntime - services[s].Runtime);
        if laxity < leastLaxity {
          leastLaxity := laxity;
          ran := s;
        }
        stats[t, s] := laxity;
      } else {
        stats[t, s] := -1;
      }
    }
    if ran != -1 {
      services[ran] := services[ran].(Runtime := services[ran].Runtime + 1);
    }
  }

  /** Every deadline comes one tick closer: with the choice before it, one step of the run. */
  method ClockTick(services: array<Service>, ghost ready: seq<Service>, ghost ran: int)
    requires services[..] == RunOne(ready, ran)
    modifies services
    ensures services[..] == Advance(ready, ran)
  {
    ghost var before := services[..];
    for s := 0 to services.Length
      invariant forall i :: 0 <= i < s ==> services[i] == before[i].(Deadline := before[i].Deadline - 1)
      invariant forall i :: s <= i < services.Length ==> services[i] == before[i]
    {
      services[s] := services[s].(Deadline := services[s].Deadline - 1);
    }
  }

  /** The services at the start of a run. */
  method SetUp(periods: array<int>, wcets: array<int>) returns (services: array<Service>)
    requires periods.Length == wcets.Length
    ensures fresh(services) && services[..] == Start(TaskSet(periods[..], wcets[..]))
    ensures forall s :: 0 <= s < services.Length ==> services[s] == Service(periods[s], wcets[s], periods[s], 0)
  {
    services := new Service[periods.Length](_ => Service(0, 0, 0, 0));
    for s := 0 to periods.Length
      invariant forall i :: 0 <= i < s ==> services[i] == Service(periods[i], wcets[i], periods[i], 0)
    {
      services[s] := Service(periods[s], wcets[s], periods[s], 0);
    }
  }

  /** One iteration of the loop, on the arrays. */
  method RunTick(protocol: Protocol, services: array<Service>, stats: array2<int>, t: nat)
    returns (ran: int, missed: nat)
    requires t < stats.Length0 && services.Length == stats.Length1
    modifies services, stats
    ensures ran == Choose(protocol, Expire(old(services[..])), services.Length)
    ensures services[..] == Advance(Expire(old(services[..])), ran)
    ensures missed == MissesNow(old(services[..]))
    ensures forall u, s :: 0 <= u < stats.Length0 && 0 <= s < stats.Length1 ==>
              stats[u, s] == if u == t && protocol != RM then Stat(protocol, Expire(old(services[..]))[s])
                             else old(stats[u, s])
  {
    missed := CheckDeadlines(services);
    ghost var ready := services[..];
    match protocol {
      case RM => ran := RunRm(services);
      case EDF => ran := RunEdf(services, stats, t);
      case LLF => ran := RunLlf(services, stats, t);
    }
    ClockTick(services, ready, ran);
  }

  /** What a run has established after t ticks. */
  ghost predicate RunInvariant(protocol: Protocol, ts: seq<Task>, t: nat, ss: seq<Service>, ev: seq<int>, misses: nat) {
    ev == Events(protocol, ts, t) && ss == After(ts, ev) && misses == Misses(ts, ev)
  }

  lemma {:induction false} RunInvariantStep(protocol: Protocol, ts: seq<Task>, t: nat, ss: seq<Service>, ev: seq<int>,
                                            misses: nat)
    requires RunInvariant(protocol, ts, t, ss, ev, misses)
    ensures |ss| == |ts| && Expire(ss) == Ready(ts, Events(protocol, ts, t))
    ensures var ran := Choose(protocol, Expire(ss), |ss|);
            RunInvariant(protocol, ts, t + 1, Advance(Expire(ss), ran), ev + [ran], misses + MissesNow(ss))
  {
  }

  /** One iteration of the loop, together with what it records. */
  method RecordTick(protocol: Protocol, ghost ts: seq<Task>, services: array<Service>, events: array<int>,
                    stats: array2<int>, t: nat, ghost before: nat)
    returns (missed: nat)
    requires t < stats.Length0 == events.Length && services.Length == stats.Length1 == |ts|
    requires RunInvariant(protocol, ts, t, services[..], events[..t], before)
    modifies services, events, stats
    ensures RunInvariant(protocol, ts, t + 1, services[..], events[..t + 1], before + missed)
    ensures forall u :: t < u < events.Length ==> events[u] == old(events[u])
    ensures forall u, s :: 0 <= u < stats.Length0 && 0 <= s < stats.Length1 ==>
              stats[u, s] == if u == t && protocol != RM then StatAt(protocol, ts, t, s) else old(stats[u, s])
  {
    RunInvariantStep(protocol, ts, t, services[..], events[..t], before);
    var ran;
    ran, missed := RunTick(protocol, services, stats, t);
    events[t] := ran;
    assert events[..t + 1] == events[..t] + [ran];
  }

  /** The stored keys of the first t ticks; later rows are still zero. */
  ghost predicate StatsRecorded(protocol: Protocol, ts: seq<Task>, t: nat, stats: array2<int>)
    requires stats.Length1 == |ts|
    reads stats
  {
    forall u, s :: 0 <= u < stats.Length0 && 0 <= s < |ts| ==>
      stats[u, s] == if u < t then StatAt(protocol, ts, u, s) else 0
  }

  /** The loop over all ticks. */
  method RunAll(protocol: Protocol, ghost ts: seq<Task>, services: array<Service>, events: array<int>,
                stats: array2<int>)
    returns (misses: nat)
    requires stats.Length0 == events.Length && services.Length == stats.Length1 == |ts|
    requires services[..] == Start(ts) && StatsRecorded(protocol, ts, 0, stats)
    modifies services, events, stats
    ensures RunInvariant(protocol, ts, events.Length, services[..], events[..], misses)
    ensures StatsRecorded(protocol, ts, events.Length, stats)
  {
    misses := 0;
    for t := 0 to events.Length
      invariant RunInvariant(protocol, ts, t, services[..], events[..t], misses)
      invariant StatsRecorded(protocol, ts, t, stats)
    {
      var missed := RecordTick(protocol, ts, services, events, stats, t, misses);
      misses := misses + missed;
    }
    assert events[..] == events[..events.Length];
  }

  /** The whole run: `events` is the trace of the protocol, `misses` the misses it records,
      and `stats` the keys of the running services tick by tick. */
  method Simulate(protocol: Protocol, periods: array<int>, wcets: array<int>, ticks: nat)
    returns (services: array<Service>, events: array<int>, misses: nat, stats: array2<int>)
    requires periods.Length == wcets.Length
    ensures var ts := TaskSet(periods[..], wcets[..]);
            && events[..] == Events(protocol, ts, ticks)
            && misses == Misses(ts, events[..])
            && services[..] == After(ts, events[..])
            && stats.Length0 == ticks && stats.Length1 == |ts| && StatsRecorded(protocol, ts, ticks, stats)
  {
    services := SetUp(periods, wcets);
    events := new int[ticks](_ => -1);
    stats := new int[ticks, services.Length]((_, _) => 0);
    misses := RunAll(protocol, TaskSet(periods[..], wcets[..]), services, events, stats);
  }

  /** CPU statistics of a run: ticks per service and idle ticks. Together they are all the ticks. */
  method Usage(events: array<int>, services: nat) returns (usage: array<int>, slack: nat)
    requires forall t :: 0 <= t < events.Length ==> events[t] == IDLE || 0 <= events[t] < services
    ensures fresh(usage) && usage.Length == services
    ensures forall s :: 0 <= s < services ==> usage[s] == Count(events[..], s, 0, events.Length)
    ensures slack == Count(events[..], IDLE, 0, events.Length)
    ensures Total(events[..], services, 0, events.Length) + slack == events.Length
  {
    usage := new int[services](_ => 0);
    slack := 0;
    for t := 0 to events.Length
      invariant forall s :: 0 <= s < services ==> usage[s] == Count(events[..], s, 0, t)
      invariant slack == Count(events[..], IDLE, 0, t)
    {
      if events[t] == -1 {
        slack := slack + 1;
      } else {
        usage[events[t]] := usage[events[t]] + 1;
      }
    }
    TotalPlusIdle(events[..], services, 0, events.Length);
  }
}
