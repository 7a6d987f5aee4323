/** Earliest deadline first: the utilisation bound is sufficient. */
module Edf {
  import opened Arith
  import opened Trace
  import opened Utilization

  /** A tick that runs something runs a pending service with the earliest current deadline. */
  predicate EdfRule(ts: seq<Task>, ev: seq<int>)
    requires Wf(ts) && Legal(ts, ev)
  {
    forall t, i :: 0 <= t < |ev| && ev[t] != IDLE && 0 <= i < |ts| && Pending(ts, ev, i, t) ==>
      AbsDeadline(ts, ev[t], t) <= AbsDeadline(ts, i, t)
  }

  /** Tick `t` does work that is due by `d`. */
  predicate DueWork(ts: seq<Task>, ev: seq<int>, d: nat, t: nat)
    requires Wf(ts) && Legal(ts, ev) && t < |ev|
  {
    ev[t] != IDLE && AbsDeadline(ts, ev[t], t) <= d
  }

  /** The start of the stretch of due work that ends at `t`. */
  lemma {:induction false} BusyStart(ts: seq<Task>, ev: seq<int>, d: nat, t: nat) returns (s: nat)
    requires Wf(ts) && Legal(ts, ev) && t <= |ev|
    ensures s <= t && forall u :: s <= u < t ==> DueWork(ts, ev, d, u)
    ensures s > 0 ==> !DueWork(ts, ev, d, s - 1)
  {
    s := t;
    while s > 0 && DueWork(ts, ev, d, s - 1)
      invariant s <= t && forall u :: s <= u < t ==> DueWork(ts, ev, d, u)
    {
      s := s - 1;
    }
  }

  /** No work of `j` that is due by `d` is pending in the tick before `s`. */
  predicate NoDueCarry(ts: seq<Task>, ev: seq<int>, j: int, s: nat, d: nat)
    requires Wf(ts) && 0 <= j < |ts| && s <= |ev|
  {
    s > 0 && AbsDeadline(ts, j, s - 1) <= d ==> !Pending(ts, ev, j, s - 1)
  }

  /** The tick before `s` was lost: it idles although a service with period `top`, released in it, has work
      due by `d`. */
  predicate LostTick(ts: seq<Task>, ev: seq<int>, s: nat, d: nat, top: int)
    requires Wf(ts) && s <= |ev| && top >= 1
  {
    s > 0 && ev[s - 1] == IDLE && (s - 1) % top == 0 && s - 1 + top <= d
  }

  /** Before a stretch of work due by `d` nothing due by `d` was pending, unless the tick was lost. */
  lemma {:induction false} NothingDueBefore(ts: seq<Task>, ev: seq<int>, d: nat, s: nat, j: int, top: int)
    requires Wf(ts) && Legal(ts, ev) && top >= 1 && ConservingBut(ts, ev, top) && EdfRule(ts, ev)
    requires s <= |ev| && 0 <= j < |ts| && (s > 0 ==> !DueWork(ts, ev, d, s - 1))
    ensures NoDueCarry(ts, ev, j, s, d) || (ts[j].T == top && LostTick(ts, ev, s, d, top))
  {
    if s > 0 && ev[s - 1] == IDLE && ts[j].T == top && (s - 1) % top == 0 {
      ReleaseUnique(top, s - 1, s - 1);
    }
  }

  /** So the stretch only runs jobs of `j` released inside it: its work is contained. */
  lemma {:induction false} StretchContained(ts: seq<Task>, ev: seq<int>, d: nat, s: nat, j: int)
    requires Wf(ts) && Legal(ts, ev) && s <= d <= |ev| && 0 <= j < |ts|
    requires forall u :: s <= u < d ==> DueWork(ts, ev, d, u)
    requires NoDueCarry(ts, ev, j, s, d)
    ensures Contained(ts, ev, j, s, d)
  {
    var T := ts[j].T;
    forall u | s <= u < d && ev[u] == j
      ensures s <= Release(T, u) && Release(T, u) + T <= d
    {
      assert DueWork(ts, ev, d, u);
      var r := Release(T, u);
      if r < s {
        ReleaseUnique(T, s - 1, r);
        LegalCap(ts, ev, j, r, u + 1);
        CountSplit(ev, j, r, s - 1, u + 1);
        CountSplit(ev, j, s - 1, u, u + 1);
      }
    }
  }

  /** A job that is short at its deadline `d` was released inside the stretch that ends at `d`. */
  lemma {:induction false} ShortJobInside(ts: seq<Task>, ev: seq<int>, d: nat, s: nat, i: int)
    requires Wf(ts) && Legal(ts, ev) && s <= d <= |ev| && DueAt(ts, i, d) && NoDueCarry(ts, ev, i, s, d)
    requires Count(ev, i, d - ts[i].T, d) < ts[i].C
    ensures s <= d - ts[i].T
  {
    var r := d - ts[i].T;
    if r < s {
      ReleaseNext(ts[i].T, d);
      ReleaseUnique(ts[i].T, d, d);
      ReleaseUnique(ts[i].T, s - 1, r);
      CountSplit(ev, i, r, s - 1, d);
    }
  }

  /** The stretch gives a short job's service strictly less than its share. */
  lemma {:induction false} ShortShare(ts: seq<Task>, ev: seq<int>, d: nat, s: nat, i: int)
    requires Wf(ts) && Legal(ts, ev) && DueAt(ts, i, d) && d <= |ev|
    requires s <= d - ts[i].T && Contained(ts, ev, i, s, d)
    requires Count(ev, i, d - ts[i].T, d) < ts[i].C
    ensures Count(ev, i, s, d) * ts[i].T + ts[i].T <= ts[i].C * (d - s)
  {
    var T, C := ts[i].T, ts[i].C;
    var r := d - T;
    ReleaseNext(T, d);
    ReleaseUnique(T, d, d);
    forall u | s <= u < r ensures Release(T, u) + T <= r {
      ReleaseBefore(T, u, r);
    }
    WindowDemand(ts, ev, i, s, r);
    CountSplit(ev, i, s, r, d);
    AddWindow(Count(ev, i, s, r), Count(ev, i, s, d) + 1, C, T, r - s, d - s);
    assert (Count(ev, i, s, d) + 1) * T == Count(ev, i, s, d) * T + T;
  }

  /** A stretch of due work in which every service stays within its share leaves no room for a short job. */
  lemma {:induction false} FullStretch(ts: seq<Task>, ev: seq<int>, H: nat, i: int, s: nat, d: nat)
    requires Wf(ts) && Legal(ts, ev) && IsHyper(ts, H) && Util(ts, |ts|, H) <= H
    requires DueAt(ts, i, d) && d <= |ev| && s < d
    requires forall u :: s <= u < d ==> DueWork(ts, ev, d, u)
    requires forall j :: 0 <= j < |ts| ==> NoDueCarry(ts, ev, j, s, d)
    ensures Count(ev, i, d - ts[i].T, d) >= ts[i].C
  {
    if Count(ev, i, d - ts[i].T, d) < ts[i].C {
      ShortJobInside(ts, ev, d, s, i);
      forall j | 0 <= j < |ts|
        ensures Count(ev, j, s, d) * ts[j].T + Gap(ts, j, i, false, 1) <= ts[j].C * (d - s)
      {
        StretchContained(ts, ev, d, s, j);
        if j == i {
          ShortShare(ts, ev, d, s, i);
        } else {
          WindowDemand(ts, ev, j, s, d);
        }
      }
      SharesBound(ts, ev, |ts|, s, d, H, i, false, 1);
      BusyTotal(ts, ev, s, d);
      MulLe(Util(ts, |ts|, H), H, d - s);
      assert false;
    }
  }

  lemma {:induction false} BusyTotal(ts: seq<Task>, ev: seq<int>, s: nat, d: nat)
    requires Wf(ts) && Legal(ts, ev) && s <= d <= |ev| && forall u :: s <= u < d ==> DueWork(ts, ev, d, u)
    ensures Total(ev, |ts|, s, d) == d - s
  {
    forall u | s <= u < d ensures ev[u] != IDLE {
      assert DueWork(ts, ev, d, u);
    }
    CountNone(ev, IDLE, s, d);
    TotalPlusIdle(ev, |ts|, s, d);
  }

  /** After a lost tick a service with period `top` still only runs jobs released from that tick on. */
  lemma {:induction false} TopContained(ts: seq<Task>, ev: seq<int>, d: nat, s: nat, j: int, top: int)
    requires Wf(ts) && Legal(ts, ev) && s <= d <= |ev| && 0 <= j < |ts| && ts[j].T == top
    requires top >= 1 && LostTick(ts, ev, s, d, top) && forall u :: s <= u < d ==> DueWork(ts, ev, d, u)
    ensures Contained(ts, ev, j, s - 1, d)
  {
    forall u | s - 1 <= u < d && ev[u] == j
      ensures s - 1 <= Release(top, u) && Release(top, u) + top <= d
    {
      assert DueWork(ts, ev, d, u);
      ReleaseAfter(top, u, s - 1);
    }
  }

  /** Its share in a stretch that starts with the lost tick ... */
  lemma {:induction false} TopShare(ts: seq<Task>, ev: seq<int>, d: nat, s: nat, i: int, j: int, top: int)
    requires Wf(ts) && Legal(ts, ev) && s <= d <= |ev| && 0 <= j < |ts| && DueAt(ts, i, d)
    requires top >= 1 && ts[j].T == top
    requires LostTick(ts, ev, s, d, top) && forall u :: s <= u < d ==> DueWork(ts, ev, d, u)
    requires Count(ev, i, d - ts[i].T, d) < ts[i].C
    ensures Count(ev, j, s - 1, d) * ts[j].T + (if j == i then ts[j].T else 0) <= ts[j].C * (d - (s - 1))
  {
    TopContained(ts, ev, d, s, j, top);
    WindowDemand(ts, ev, j, s - 1, d);
    if j == i {
      ShortShare(ts, ev, d, s - 1, i);
    }
  }

  /** ... and that of any other service, which does not even use the lost tick. */
  lemma {:induction false} OtherShare(ts: seq<Task>, ev: seq<int>, d: nat, s: nat, i: int, j: int)
    requires Wf(ts) && Legal(ts, ev) && 0 < s <= d <= |ev| && 0 <= j < |ts| && DueAt(ts, i, d)
    requires ev[s - 1] == IDLE && forall u :: s <= u < d ==> DueWork(ts, ev, d, u)
    requires NoDueCarry(ts, ev, j, s, d)
    requires Count(ev, i, d - ts[i].T, d) < ts[i].C
    ensures Count(ev, j, s - 1, d) * ts[j].T + ts[j].C + (if j == i then ts[j].T else 0) <= ts[j].C * (d - (s - 1))
  {
    StretchContained(ts, ev, d, s, j);
    if j == i {
      ShortJobInside(ts, ev, d, s, i);
      ShortShare(ts, ev, d, s, i);
    } else {
      WindowDemand(ts, ev, j, s, d);
    }
    IdleFirst(ev, j, s - 1, d);
    Widen(Count(ev, j, s, d) * ts[j].T + (if j == i then ts[j].T else 0), ts[j].C, d - s);
  }

  lemma {:induction false} Widen(n: int, C: int, L: int)
    requires n <= C * L
    ensures n + C <= C * (L + 1)
  {
  }

  lemma {:induction false} IdleFirst(ev: seq<int>, v: int, a: nat, b: nat)
    requires a < b <= |ev| && ev[a] == IDLE && v != IDLE
    ensures Count(ev, v, a, b) == Count(ev, v, a + 1, b)
  {
    CountSplit(ev, v, a, a + 1, b);
    CountNone(ev, v, a, a + 1);
  }

  /** A lost tick costs a deadline only if the services with period `top` alone fill that period. */
  lemma {:induction false} LostStretch(ts: seq<Task>, ev: seq<int>, H: nat, i: int, s: nat, d: nat, top: int)
    requires Wf(ts) && Legal(ts, ev) && IsHyper(ts, H) && Util(ts, |ts|, H) <= H
    requires DueAt(ts, i, d) && s <= d <= |ev| && top >= 1 && H % top == 0 && LostTick(ts, ev, s, d, top)
    requires forall u :: s <= u < d ==> DueWork(ts, ev, d, u)
    requires forall j :: 0 <= j < |ts| && ts[j].T != top ==> NoDueCarry(ts, ev, j, s, d)
    requires TopLoad(ts, |ts|, top) < top
    ensures Count(ev, i, d - ts[i].T, d) >= ts[i].C
  {
    if Count(ev, i, d - ts[i].T, d) < ts[i].C {
      var a := s - 1;
      forall j | 0 <= j < |ts|
        ensures Count(ev, j, a, d) * ts[j].T + Gap(ts, j, i, true, top) <= ts[j].C * (d - a)
      {
        if ts[j].T == top {
          TopShare(ts, ev, d, s, i, j, top);
        } else {
          OtherShare(ts, ev, d, s, i, j);
        }
      }
      SharesBound(ts, ev, |ts|, a, d, H, i, true, top);
      BusyTotal(ts, ev, s, d);
      TotalFrom(ev, |ts|, a, d);
      UtilSplit(ts, |ts|, H, top, H / top);
      NoRoom(d - a, H, Util(ts, |ts|, H), OtherUtil(ts, |ts|, H, top), TopLoad(ts, |ts|, top), top);
      assert false;
    }
  }

  lemma {:induction false} TotalFrom(ev: seq<int>, n: nat, a: nat, b: nat)
    requires a < b <= |ev| && ev[a] == IDLE
    ensures Total(ev, n, a, b) == Total(ev, n, a + 1, b)
  {
    if n > 0 {
      TotalFrom(ev, n - 1, a, b);
      IdleFirst(ev, n - 1, a, b);
    }
  }

  /** Shares that leave nothing to the others make the load of the services with period `top` at least `top`. */
  lemma {:induction false} NoRoom(L: nat, H: nat, u: int, other: int, load: int, top: int)
    requires top >= 1 && H >= 1 && H % top == 0 && L >= 1 && other >= 0 && u <= H
    requires u == other + load * (H / top) && (L - 1) * H + other + H <= L * u
    ensures load >= top
  {
    MulLe(u, H, L);
    Distribute(L - 1, 1, H);
    CancelLe(H, u, L);
    QuotientExact(H, top);
    CancelLe(top, load, H / top);
  }

  /** No job is short at its deadline when utilisation is at most one and the services with period `top`
      do not fill that period. */
  lemma {:induction false} EdfNeverShort(ts: seq<Task>, ev: seq<int>, H: nat, i: int, d: nat, top: int)
    requires Wf(ts) && Legal(ts, ev) && top >= 1 && ConservingBut(ts, ev, top) && EdfRule(ts, ev)
    requires IsHyper(ts, H) && Util(ts, |ts|, H) <= H && TopLoad(ts, |ts|, top) < top
    requires DueAt(ts, i, d) && d <= |ev|
    ensures Count(ev, i, d - ts[i].T, d) >= ts[i].C
  {
    var s := BusyStart(ts, ev, d, d);
    forall j | 0 <= j < |ts|
      ensures NoDueCarry(ts, ev, j, s, d) || (ts[j].T == top && LostTick(ts, ev, s, d, top))
    {
      NothingDueBefore(ts, ev, d, s, j, top);
    }
    if forall j :: 0 <= j < |ts| ==> NoDueCarry(ts, ev, j, s, d) {
      if s < d {
        FullStretch(ts, ev, H, i, s, d);
      } else if Count(ev, i, d - ts[i].T, d) < ts[i].C {
        ShortJobInside(ts, ev, d, s, i);
      }
    } else {
      LostStretch(ts, ev, H, i, s, d, top);
    }
  }

  /** EDF misses no deadline when utilisation is at most one, even if it idles over work of the services with
      period `top` at their release, as long as these do not fill that period by themselves. */
  lemma {:induction false} EdfMeets(ts: seq<Task>, ev: seq<int>, H: nat, top: int)
    requires Wf(ts) && Legal(ts, ev) && top >= 1 && ConservingBut(ts, ev, top) && EdfRule(ts, ev)
    requires IsHyper(ts, H) && Util(ts, |ts|, H) <= H && TopLoad(ts, |ts|, top) < top
    ensures MetBy(ts, ev, |ev|)
  {
    forall i, d | DueAt(ts, i, d) && d <= |ev| ensures Complete(ts, ev, i, d)
    {
      ReleaseUnique(ts[i].T, d, d);
      ReleaseNext(ts[i].T, d);
      LegalCap(ts, ev, i, d - ts[i].T, d);
      EdfNeverShort(ts, ev, H, i, d, top);
    }
  }

  // ----- a trace that follows the rule -----

  /** The pending service with the earliest deadline among the first n, or IDLE. */
  lemma {:induction false} EarliestPending(ts: seq<Task>, ev: seq<int>, n: nat) returns (p: int)
    requires Wf(ts) && n <= |ts|
    ensures p == IDLE ==> forall i :: 0 <= i < n ==> !Pending(ts, ev, i, |ev|)
    ensures p != IDLE ==> 0 <= p < n && Pending(ts, ev, p, |ev|)
    ensures p != IDLE ==> forall i :: 0 <= i < n && Pending(ts, ev, i, |ev|) ==>
                            AbsDeadline(ts, p, |ev|) <= AbsDeadline(ts, i, |ev|)
  {
    p := IDLE;
    if n > 0 {
      p := EarliestPending(ts, ev, n - 1);
      var j := n - 1;
      if Pending(ts, ev, j, |ev|) && (p == IDLE || AbsDeadline(ts, j, |ev|) < AbsDeadline(ts, p, |ev|)) {
        p := j;
      }
    }
  }

  lemma {:induction false} PendingPrefix(ts: seq<Task>, ev: seq<int>, p: int, i: int, t: nat)
    requires Wf(ts) && 0 <= i < |ts| && t <= |ev|
    ensures Pending(ts, ev + [p], i, t) == Pending(ts, ev, i, t)
  {
    CountSame(ev + [p], ev, i, Release(ts[i].T, t), t);
  }

  lemma {:induction false} EdfTrace(ts: seq<Task>, n: nat) returns (ev: seq<int>)
    requires Wf(ts)
    ensures |ev| == n && Legal(ts, ev) && WorkConserving(ts, ev) && EdfRule(ts, ev)
  {
    ev := [];
    if n > 0 {
      var e := EdfTrace(ts, n - 1);
      var p := EarliestPending(ts, e, |ts|);
      ev := e + [p];
      forall i, t: nat | 0 <= i < |ts| && t < n ensures Pending(ts, ev, i, t) == Pending(ts, e, i, t) {
        PendingPrefix(ts, e, p, i, t);
      }
    }
  }
}
