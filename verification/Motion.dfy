/** The motion detector: a recogniser of "one change, then quiet" over unbounded frame streams. */
module Motion {

  const MOTION_START_GOOD_FRAMES: nat := 8
  const MOTION_GOOD_FRAMES_THRESHOLD: nat := 4

  datatype Phase = Start | Searching | Bookend | Counting

  datatype State = State(phase: Phase, good: nat)

  const INITIAL: State := State(Start, 0)

  /** One frame: the next state and whether it ticks. */
  function Step(s: State, changed: bool): (State, bool) {
    match s.phase
    case Start =>
      var good := if changed then 0 else s.good + 1;
      if good > MOTION_START_GOOD_FRAMES then (State(Searching, 0), false) else (State(Start, good), false)
    case Searching =>
      (if changed then State(Bookend, s.good) else s, false)
    case Bookend =>
      (if changed then s else State(Counting, s.good), false)
    case Counting =>
      if changed then (State(Searching, 0), false)
      else if s.good + 1 > MOTION_GOOD_FRAMES_THRESHOLD then (State(Searching, 0), true)
      else (State(Counting, s.good + 1), false)
  }

  /** The state after a stream of frames; true is a changed frame. */
  function After(frames: seq<bool>): State {
    if frames == [] then INITIAL else Step(After(frames[..|frames| - 1]), frames[|frames| - 1]).0
  }

  /** The last frame of the stream ticks. */
  predicate Ticks(frames: seq<bool>) {
    frames != [] && Step(After(frames[..|frames| - 1]), frames[|frames| - 1]).1
  }

  /** The detector object, updated in place. */
  class Detector {
    var phase: Phase
    var good: nat

    constructor ()
      ensures Current() == INITIAL
    {
      phase := Start;
      good := 0;
    }

    function Current(): State
      reads this
    {
      State(phase, good)
    }

    method NextMotionState(changed: bool) returns (tick: bool)
      modifies this
      ensures (Current(), tick) == Step(old(Current()), changed)
    {
      match phase {
        case Start =>
          if changed {
            good := 0;
          } else {
            good := good + 1;
          }
          if good > MOTION_START_GOOD_FRAMES {
            phase := Searching;
            good := 0;
          }
        case Searching =>
          if changed {
            phase := Bookend;
          }
        case Bookend =>
          if !changed {
            phase := Counting;
          }
        case Counting =>
          if !changed {
            good := good + 1;
          } else {
            phase := Searching;
            good := 0;
          }
          if good > MOTION_GOOD_FRAMES_THRESHOLD {
            phase := Searching;
            good := 0;
            return true;
          }
      }
      tick := false;
    }
  }

  /** The last k frames are unchanged. */
  predicate QuietFor(frames: seq<bool>, k: nat) {
    k <= |frames| && forall i :: |frames| - k <= i < |frames| ==> !frames[i]
  }

  /** The stream ends in a changed frame and then exactly k unchanged ones. */
  predicate QuietSinceChange(frames: seq<bool>, k: nat) {
    k < |frames| && QuietFor(frames, k) && frames[|frames| - 1 - k]
  }

  /** Somewhere the stream has had nine unchanged frames in a row. */
  ghost predicate Settled(frames: seq<bool>) {
    exists m: nat :: m <= |frames| && QuietFor(frames[..m], 9)
  }

  /** What each phase says about the frames seen so far. */
  ghost predicate Explains(frames: seq<bool>, s: State) {
    && (s.phase == Start <==> !Settled(frames))
    && (s.phase == Start ==> s.good <= 8 && QuietFor(frames, s.good))
    && (s.phase == Start && s.good < |frames| ==> frames[|frames| - 1 - s.good])
    && (s.phase == Searching || s.phase == Bookend ==> s.good == 0)
    && (s.phase == Bookend ==> |frames| >= 10 && QuietSinceChange(frames, 0))
    && (s.phase == Counting ==> s.good <= 4 && |frames| >= 11 + s.good && QuietSinceChange(frames, s.good + 1))
    && (s.phase == Counting ==> After(frames[..|frames| - 1 - s.good]).phase == Bookend)
    && (s.phase == Searching ==> |frames| >= 9)
  }

  lemma {:induction false} SettledStep(frames: seq<bool>)
    requires frames != []
    ensures Settled(frames) <==> Settled(frames[..|frames| - 1]) || QuietFor(frames, 9)
  {
    var p := frames[..|frames| - 1];
    if Settled(frames) {
      var m: nat :| m <= |frames| && QuietFor(frames[..m], 9);
      if m < |frames| {
        assert p[..m] == frames[..m];
      } else {
        assert frames[..m] == frames;
      }
    }
    if Settled(p) {
      var m: nat :| m <= |p| && QuietFor(p[..m], 9);
      assert p[..m] == frames[..m];
    }
    if QuietFor(frames, 9) {
      assert frames[..|frames|] == frames;
    }
  }

  lemma {:induction false} PhaseExplained(frames: seq<bool>)
    ensures Explains(frames, After(frames))
  {
    if frames == [] {
      assert !Settled(frames);
    } else {
      var p, c := frames[..|frames| - 1], frames[|frames| - 1];
      PhaseExplained(p);
      SettledStep(frames);
      assert frames == p + [c];
      ExplainedStep(p, c);
    }
  }

  lemma {:induction false} ExplainedStep(p: seq<bool>, c: bool)
    requires Explains(p, After(p)) && (Settled(p + [c]) <==> Settled(p) || QuietFor(p + [c], 9))
    ensures Explains(p + [c], After(p + [c]))
  {
    var f, s := p + [c], After(p);
    assert f[..|f| - 1] == p;
    var t := After(f);
    if t.phase == Counting {
      if s.phase == Counting {
        assert f[..|f| - 1 - t.good] == p[..|p| - 1 - s.good];
      } else {
        assert f[..|f| - 1] == p;
      }
    }
  }

  function Quiet(k: nat): (q: seq<bool>)
    ensures |q| == k && forall i :: 0 <= i < k ==> !q[i]
  {
    seq(k, _ => false)
  }

  function Burst(k: nat): (q: seq<bool>)
    ensures |q| == k && forall i :: 0 <= i < k ==> q[i]
  {
    seq(k, _ => true)
  }

  /** From an armed detector the sixth unchanged frame ticks and none before it does. */
  lemma {:induction false} QuietRun(p: seq<bool>, k: nat)
    requires After(p).phase == Bookend && k <= 6
    ensures Ticks(p + Quiet(k)) <==> k == 6
    ensures 1 <= k <= 5 ==> After(p + Quiet(k)) == State(Counting, k - 1)
    ensures k == 6 ==> After(p + Quiet(k)).phase == Searching
    ensures k == 0 ==> After(p + Quiet(k)) == After(p)
  {
    var f := p + Quiet(k);
    PhaseExplained(p);
    if k == 0 {
      assert f == p;
      TickLeavesSearching(p);
    } else {
      QuietRun(p, k - 1);
      assert f[..|f| - 1] == p + Quiet(k - 1);
    }
  }

  lemma {:induction false} TickLeavesSearching(f: seq<bool>)
    requires Ticks(f)  || After(f).phase == Bookend
    ensures Ticks(f) ==> After(f) == State(Searching, 0)
  {
  }

  /** A changed frame at the end, seen by a settled detector that was not counting, arms it. */
  ghost predicate Armed(frames: seq<bool>)
    decreases |frames|
  {
    && frames != [] && frames[|frames| - 1]
    && Settled(frames[..|frames| - 1]) && !Waiting(frames[..|frames| - 1])
  }

  /** One to five unchanged frames have followed a change that armed the detector: a change now is spent on
      starting over. */
  ghost predicate Waiting(frames: seq<bool>)
    decreases |frames|
  {
    exists g: nat :: 1 <= g <= 5 && QuietSinceChange(frames, g) && Armed(frames[..|frames| - g])
  }

  /** The frames alone say when the detector is armed ... */
  lemma {:induction false} ArmedExact(frames: seq<bool>)
    ensures Armed(frames) <==> After(frames).phase == Bookend
    decreases |frames|, 1
  {
    if frames != [] {
      PhaseExplained(frames);
      PhaseExplained(frames[..|frames| - 1]);
      WaitingExact(frames[..|frames| - 1]);
    }
  }

  /** ... and when it waits. */
  lemma {:induction false} WaitingExact(frames: seq<bool>)
    ensures Waiting(frames) <==> After(frames).phase == Counting
    decreases |frames|, 0
  {
    if After(frames).phase == Counting {
      PhaseExplained(frames);
      var g := After(frames).good + 1;
      ArmedExact(frames[..|frames| - g]);
      assert Waiting(frames);
    }
    if Waiting(frames) {
      var g: nat :| 1 <= g <= 5 && QuietSinceChange(frames, g) && Armed(frames[..|frames| - g]);
      ArmedExact(frames[..|frames| - g]);
      QuietRun(frames[..|frames| - g], g);
      assert frames == frames[..|frames| - g] + Quiet(g);
    }
  }

  /** A tick comes exactly when six unchanged frames have followed a change that armed the detector. */
  lemma {:induction false} TickExact(frames: seq<bool>)
    ensures Ticks(frames) <==> QuietSinceChange(frames, 6) && Armed(frames[..|frames| - 6])
  {
    if Ticks(frames) {
      var p := frames[..|frames| - 1];
      PhaseExplained(p);
      assert frames[..|frames| - 6] == p[..|p| - 5];
      ArmedExact(frames[..|frames| - 6]);
    }
    if QuietSinceChange(frames, 6) && Armed(frames[..|frames| - 6]) {
      ArmedExact(frames[..|frames| - 6]);
      QuietRun(frames[..|frames| - 6], 6);
      assert frames == frames[..|frames| - 6] + Quiet(6);
    }
  }

  /** The first tick needs at least sixteen frames, and the last seven are one change and six unchanged. */
  lemma {:induction false} TickShape(frames: seq<bool>)
    requires Ticks(frames)
    ensures |frames| >= 16 && QuietSinceChange(frames, 6)
  {
    TickExact(frames);
    PhaseExplained(frames[..|frames| - 1]);
  }

  /** Two ticks are at least seven frames apart. */
  lemma {:induction false} TicksApart(frames: seq<bool>, a: nat, b: nat)
    requires a < b <= |frames| && Ticks(frames[..a]) && Ticks(frames[..b])
    ensures b - a >= 7
  {
    TickShape(frames[..a]);
    TickShape(frames[..b]);
    assert frames[..b][b - 7];
    assert forall i :: a - 6 <= i < a ==> !frames[..a][i];
  }

  /** A burst of changed frames ticks nowhere. It arms the detector unless it is a single change while COUNTING. */
  lemma {:induction false} BurstRun(p: seq<bool>, k: nat)
    requires After(p).phase != Start && k >= 1
    ensures !Ticks(p + Burst(k))
    ensures After(p + Burst(k)).phase == if k == 1 && After(p).phase == Counting then Searching else Bookend
  {
    var f := p + Burst(k);
    if k > 1 {
      BurstRun(p, k - 1);
      assert f[..|f| - 1] == p + Burst(k - 1);
    } else {
      assert f[..|f| - 1] == p;
    }
  }

  /** Once settled, a burst of at least two changes, or a single change that is not spent, followed by six unchanged
      frames ticks exactly once, at its last frame. */
  lemma {:induction false} BurstTicksOnce(p: seq<bool>, k: nat)
    requires Settled(p) && k >= 1 && (k >= 2 || !Waiting(p))
    ensures var f := p + Burst(k) + Quiet(6);
            forall m: nat :: |p| < m <= |f| ==> (Ticks(f[..m]) <==> m == |f|)
  {
    var f := p + Burst(k) + Quiet(6);
    PhaseExplained(p);
    WaitingExact(p);
    BurstRun(p, k);
    forall m: nat | |p| < m <= |f| ensures Ticks(f[..m]) <==> m == |f| {
      if m <= |p| + k {
        BurstRun(p, m - |p|);
        assert f[..m] == p + Burst(m - |p|);
      } else {
        QuietRun(p + Burst(k), m - |p| - k);
        assert f[..m] == p + Burst(k) + Quiet(m - |p| - k);
      }
    }
  }

  /** The shape alone is not enough: a single change while the detector waits is spent on starting over, so the same
      seven frames after it do not tick. */
  lemma {:induction false} InterruptedIsMissed(p: seq<bool>)
    requires Waiting(p)
    ensures var f := p + Burst(1) + Quiet(6); QuietSinceChange(f, 6) && !Ticks(f)
  {
    var f := p + Burst(1) + Quiet(6);
    assert f[..|f| - 6] == p + Burst(1);
    assert (p + Burst(1))[..|p|] == p;
    TickExact(f);
  }
}
