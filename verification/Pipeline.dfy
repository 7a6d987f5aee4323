/** The producer, summer and totaller of exam2 as interleaved steps over two queues and five semaphores.
    A completed send or receive is one step; N is the number of items and Q the queue capacity
    (both 200 in the source). */
module Pipeline {
  import opened Arith

  /** A message queue with its sanity counter. */
  datatype Queue = Queue(msgs: seq<int>, count: int)

  datatype S1Pc = S1Loop | S1Wait | S1Send | S1JoinW1 | S1JoinW2 | S1Exit
  datatype W1Pc = W1Loop | W1Wait | W1Take1 | W1Recv1 | W1Take2 | W1Recv2 | W1Send | W1Exit
  datatype W2Pc = W2Loop | W2Wait | W2Take | W2Recv | W2Exit

  datatype State = State(
    running: bool, seqCount: nat, ticks: nat,
    semS1: nat, semW1: nat, semW2: nat, doneW1: nat, doneW2: nat,
    s1: S1Pc, count: nat,
    w1: W1Pc, num1: int, num2: int, dequeued: nat,
    w2: W2Pc, totalSum: int, totalCount: nat,
    q1: Queue, q2: Queue)

  datatype Action = Tick | StepS1 | StepW1 | StepW2

  const WRAP: nat := 500

  function Init(): State {
    State(true, 0, 0, 0, 0, 0, 0, 0, S1Loop, 0, W1Loop, 0, 0, 0, W2Loop, 0, 0, Queue([], 0), Queue([], 0))
  }

  // ----- queue operations -----

  /** enqueue_P: refused when the counter says full. */
  function Enqueue(q: Queue, Q: nat, x: int): Queue {
    if q.count == Q then q else Queue(q.msgs + [x], q.count + 1)
  }

  /** dequeue_P, first half: the counter goes down before the receive, which may block. */
  function BeginDequeue(q: Queue): Queue {
    q.(count := q.count - 1)
  }

  /** dequeue_P, second half: the receive. */
  function Receive(q: Queue): Queue
    requires q.msgs != []
  {
    q.(msgs := q.msgs[1..])
  }

  // ----- steps -----

  predicate Enabled(s: State, a: Action, Q: nat) {
    match a
    case Tick => true
    case StepS1 =>
      (match s.s1
       case S1Loop => true
       case S1Wait => s.semS1 > 0
       case S1Send => |s.q1.msgs| < Q
       case S1JoinW1 => s.doneW1 > 0
       case S1JoinW2 => s.doneW2 > 0
       case S1Exit => false)
    case StepW1 =>
      (match s.w1
       case W1Wait => s.semW1 > 0
       case W1Recv1 => s.q1.msgs != []
       case W1Recv2 => s.q1.msgs != []
       case W1Send => |s.q2.msgs| < Q
       case W1Exit => false
       case _ => true)
    case StepW2 =>
      (match s.w2
       case W2Wait => s.semW2 > 0
       case W2Recv => s.q2.msgs != []
       case W2Exit => false
       case _ => true)
  }

  /** The sequencer: while running, release S1 every 5, W1 every 10 and W2 every 100 ticks. */
  function NextTick(s: State): State {
    if !s.running then s else
      s.(semS1 := s.semS1 + (if s.seqCount % 5 == 0 then 1 else 0),
         semW1 := s.semW1 + (if s.seqCount % 10 == 0 then 1 else 0),
         semW2 := s.semW2 + (if s.seqCount % 100 == 0 then 1 else 0),
         seqCount := if s.seqCount + 1 == WRAP then 0 else s.seqCount + 1,
         ticks := s.ticks + 1)
  }

  function NextS1(s: State, N: nat, Q: nat): State
    requires Enabled(s, StepS1, Q)
  {
    match s.s1
    case S1Loop => s.(s1 := if s.running then S1Wait else S1Exit)
    case S1Wait => s.(semS1 := s.semS1 - 1, s1 := S1Send)
    case S1Send =>
      var n := s.count + 1;
      s.(count := n, q1 := Enqueue(s.q1, Q, n), s1 := if n == N then S1JoinW1 else S1Loop)
    case S1JoinW1 => s.(doneW1 := s.doneW1 - 1, s1 := S1JoinW2)
    case S1JoinW2 => s.(doneW2 := s.doneW2 - 1, running := false, s1 := S1Exit)
    case S1Exit => s
  }

  function NextW1(s: State, N: nat, Q: nat): State
    requires Enabled(s, StepW1, Q)
  {
    match s.w1
    case W1Loop => s.(w1 := if s.running then W1Wait else W1Exit)
    case W1Wait => s.(semW1 := s.semW1 - 1, w1 := W1Take1)
    case W1Take1 => s.(q1 := BeginDequeue(s.q1), w1 := W1Recv1)
    case W1Recv1 => s.(num1 := s.q1.msgs[0], q1 := Receive(s.q1), w1 := W1Take2)
    case W1Take2 => s.(q1 := BeginDequeue(s.q1), w1 := W1Recv2)
    case W1Recv2 => s.(num2 := s.q1.msgs[0], q1 := Receive(s.q1), w1 := W1Send)
    case W1Send =>
      var d := s.dequeued + 2;
      var t := s.(dequeued := d, q2 := Enqueue(s.q2, Q, s.num1 + s.num2));
      if d > N - 2 then t.(doneW1 := t.doneW1 + 1, w1 := W1Exit) else t.(w1 := W1Loop)
    case W1Exit => s
  }

  function NextW2(s: State, N: nat, Q: nat): State
    requires Enabled(s, StepW2, Q)
  {
    match s.w2
    case W2Loop => s.(w2 := if s.running then W2Wait else W2Exit)
    case W2Wait => s.(semW2 := s.semW2 - 1, w2 := W2Take)
    case W2Take => s.(q2 := BeginDequeue(s.q2), w2 := W2Recv)
    case W2Recv =>
      var t := s.(totalSum := s.totalSum + s.q2.msgs[0], totalCount := s.totalCount + 1, q2 := Receive(s.q2));
      if t.totalCount == N / 2 then t.(doneW2 := t.doneW2 + 1, w2 := W2Exit) else t.(w2 := W2Loop)
    case W2Exit => s
  }

  function Next(s: State, a: Action, N: nat, Q: nat): State
    requires Enabled(s, a, Q)
  {
    match a
    case Tick => NextTick(s)
    case StepS1 => NextS1(s, N, Q)
    case StepW1 => NextW1(s, N, Q)
    case StepW2 => NextW2(s, N, Q)
  }

  /** The state after a schedule; an action that is not enabled blocks and changes nothing. */
  function Run(sched: seq<Action>, N: nat, Q: nat): State {
    if sched == [] then Init() else
      var s := Run(sched[..|sched| - 1], N, Q);
      var a := sched[|sched| - 1];
      if Enabled(s, a, Q) then Next(s, a, N, Q) else s
  }

  // ----- sums -----

  function Sum(xs: seq<int>): int {
    if xs == [] then 0 else xs[0] + Sum(xs[1..])
  }

  lemma {:induction false} SumAppend(xs: seq<int>, x: int)
    ensures Sum(xs + [x]) == Sum(xs) + x
  {
    if xs != [] {
      SumAppend(xs[1..], x);
      assert (xs + [x])[1..] == xs[1..] + [x];
    }
  }

  /** 1 + 2 + ... + n */
  function Triangle(n: nat): nat {
    if n == 0 then 0 else Triangle(n - 1) + n
  }

  lemma {:induction false} TriangleClosed(n: nat)
    ensures 2 * Triangle(n) == n * (n + 1)
  {
    if n > 0 {
      TriangleClosed(n - 1);
    }
  }

  // ----- invariants -----

  /** Items W1 holds between receiving them and sending their sum. */
  function Held(s: State): nat {
    match s.w1
    case W1Take2 => 1
    case W1Recv2 => 1
    case W1Send => 2
    case _ => 0
  }

  function HeldSum(s: State): int {
    match s.w1
    case W1Take2 => s.num1
    case W1Recv2 => s.num1
    case W1Send => s.num1 + s.num2
    case _ => 0
  }

  /** Nothing is lost: everything sent is totalled, queued or held. */
  predicate Conserved(s: State) {
    s.totalSum + Sum(s.q2.msgs) + HeldSum(s) + Sum(s.q1.msgs) == Triangle(s.count)
  }

  /** The sanity counters are the queue lengths less a receiver that has announced itself. */
  predicate Counters(s: State) {
    && s.q1.count == |s.q1.msgs| - (if s.w1.W1Recv1? || s.w1.W1Recv2? then 1 else 0)
    && s.q2.count == |s.q2.msgs| - (if s.w2.W2Recv? then 1 else 0)
  }

  /** Items and sums are accounted for one by one. */
  predicate Counts(s: State, N: nat) {
    && s.count == s.dequeued + Held(s) + |s.q1.msgs|
    && s.dequeued == 2 * (s.totalCount + |s.q2.msgs|)
    && s.count <= N
  }

  /** The first n sums that W1 sends: 3 + 7 + 11 + ... */
  function FirstSums(n: nat): nat {
    if n == 0 then 0 else FirstSums(n - 1) + 4 * (n - 1) + 3
  }

  /** Whatever the interleaving, messages are the same and in order: item k of W1_Q is the number k, sum k of W2_Q
      is 4k + 3 (counted from zero), and W2's total depends only on how many sums it has taken. */
  predicate InOrder(s: State) {
    && (forall i :: 0 <= i < |s.q1.msgs| ==> s.q1.msgs[i] == s.count - |s.q1.msgs| + 1 + i)
    && (Held(s) >= 1 ==> s.num1 == s.dequeued + 1)
    && (Held(s) >= 2 ==> s.num2 == s.dequeued + 2)
    && (forall i :: 0 <= i < |s.q2.msgs| ==> s.q2.msgs[i] == 4 * (s.totalCount + i) + 3)
    && s.totalSum == FirstSums(s.totalCount)
  }

  /** Where each thread can be, and that nobody stops early. */
  predicate Control(s: State, N: nat) {
    && (s.s1.S1Loop? || s.s1.S1Wait? || s.s1.S1Send? ==> s.count < N)
    && (s.s1.S1JoinW1? || s.s1.S1JoinW2? || s.s1.S1Exit? ==> s.count == N)
    && (s.w1.W1Exit? <==> s.dequeued == N)
    && (s.w2.W2Exit? <==> s.totalCount == N / 2)
    && s.doneW1 == (if s.w1.W1Exit? && !s.s1.S1JoinW2? && !s.s1.S1Exit? then 1 else 0)
    && s.doneW2 == (if s.w2.W2Exit? && !s.s1.S1Exit? then 1 else 0)
    && (s.s1.S1JoinW2? || s.s1.S1Exit? ==> s.w1.W1Exit?)
    && (s.s1.S1Exit? ==> s.w2.W2Exit?)
    && (s.running <==> !s.s1.S1Exit?)
  }

  /** Posts to a semaphore after n running ticks, one every k. */
  function Posts(n: nat, k: nat): nat
    requires k > 0
  {
    (n + k - 1) / k
  }

  /** Releases of W1 that are available or used, in items. */
  function UsedW1(s: State): nat {
    2 * s.semW1 + s.dequeued + (if s.w1.W1Loop? || s.w1.W1Wait? || s.w1.W1Exit? then 0 else 2)
  }

  /** Every release is still available or was used for one round of its thread. */
  predicate Releases(s: State) {
    && s.seqCount == s.ticks % WRAP
    && s.semS1 + s.count + (if s.s1.S1Send? then 1 else 0) == Posts(s.ticks, 5)
    && UsedW1(s) == 2 * Posts(s.ticks, 10)
    && s.semW2 + s.totalCount + (if s.w2.W2Take? || s.w2.W2Recv? then 1 else 0) == Posts(s.ticks, 100)
  }

  predicate Inv(s: State, N: nat) {
    Conserved(s) && Counters(s) && Counts(s, N) && InOrder(s) && Control(s, N) && Releases(s)
  }

  lemma {:induction false} OneMoreTick(n: nat, k: nat)
    requires k > 0 && WRAP % k == 0
    ensures Posts(n + 1, k) == Posts(n, k) + (if (n % WRAP) % k == 0 then 1 else 0)
  {
    var q, r := n / k, n % k;
    var c := WRAP / k;
    assert n % WRAP % k == n % k by {
      var m := n / WRAP;
      assert n == m * WRAP + n % WRAP && WRAP == c * k;
      assert m * WRAP == (m * c) * k;
      ModShift(n % WRAP, m * c, k);
    }
    assert n == q * k + r;
    if r == 0 {
      DivModUnique(n + k - 1, k, q, k - 1);
      DivModUnique(n + k, k, q + 1, 0);
    } else {
      DivModUnique(n + k - 1, k, q + 1, r - 1);
      DivModUnique(n + k, k, q + 1, r);
    }
  }

  lemma {:induction false} ModShift(a: nat, m: nat, k: nat)
    requires k > 0
    ensures (m * k + a) % k == a % k
  {
    assert m * k + a == (m + a / k) * k + a % k;
    DivModUnique(m * k + a, k, m + a / k, a % k);
  }

  /** Nothing has happened yet. */
  predicate Fresh(s: State) {
    && s.running && s.seqCount == s.ticks == s.semS1 == s.semW1 == s.semW2 == s.doneW1 == s.doneW2 == 0
    && s.s1.S1Loop? && s.w1.W1Loop? && s.w2.W2Loop?
    && s.count == s.dequeued == s.totalSum == s.totalCount == 0
    && s.q1.msgs == [] && s.q1.count == 0 && s.q2.msgs == [] && s.q2.count == 0
  }

  lemma {:induction false} InitFresh()
    ensures Fresh(Init())
  {
  }

  lemma {:induction false} FreshCounts(s: State, N: nat)
    requires Fresh(s)
    ensures Conserved(s) && Counters(s) && Counts(s, N)
  {
  }

  lemma {:induction false} FreshInv(s: State, N: nat)
    requires N >= 2 && N % 2 == 0 && Fresh(s)
    ensures Inv(s, N)
  {
    FreshCounts(s, N);
  }

  /** A send finds room: the full-queue guard never fires. */
  lemma {:induction false} NeverFull(s: State, N: nat, Q: nat)
    requires N >= 2 && N % 2 == 0 && Q >= N && Inv(s, N)
    ensures s.s1.S1Send? ==> s.q1.count < Q && |s.q1.msgs| < Q
    ensures s.w1.W1Send? ==> s.q2.count < Q && |s.q2.msgs| < Q
  {
  }

  lemma {:induction false} TickReleases(s: State, N: nat)
    requires Releases(s) && s.running
    ensures Releases(NextTick(s))
  {
    PostsStep(s.ticks, s.seqCount);
  }

  lemma {:induction false} PostsStep(n: nat, seqCount: nat)
    requires seqCount == n % WRAP
    ensures (n + 1) % WRAP == if seqCount + 1 == WRAP then 0 else seqCount + 1
    ensures Posts(n + 1, 5) == Posts(n, 5) + (if seqCount % 5 == 0 then 1 else 0)
    ensures Posts(n + 1, 10) == Posts(n, 10) + (if seqCount % 10 == 0 then 1 else 0)
    ensures Posts(n + 1, 100) == Posts(n, 100) + (if seqCount % 100 == 0 then 1 else 0)
  {
    OneMoreTick(n, 5);
    OneMoreTick(n, 10);
    OneMoreTick(n, 100);
    WrapStep(n);
  }

  lemma {:induction false} TickInv(s: State, N: nat)
    requires Inv(s, N)
    ensures Inv(NextTick(s), N)
  {
    if s.running {
      TickReleases(s, N);
    }
  }

  lemma {:induction false} WrapStep(n: nat)
    ensures (n + 1) % WRAP == if n % WRAP + 1 == WRAP then 0 else n % WRAP + 1
  {
  }

  // Each thread keeps each part of the invariant.

  lemma {:induction false} S1Conserves(s: State, N: nat, Q: nat)
    requires Conserved(s) && Enabled(s, StepS1, Q) && (s.s1.S1Send? ==> s.q1.count < Q)
    ensures Conserved(NextS1(s, N, Q))
  {
    SumAppend(s.q1.msgs, s.count + 1);
  }

  lemma {:induction false} W1Conserves(s: State, N: nat, Q: nat)
    requires Conserved(s) && Enabled(s, StepW1, Q) && (s.w1.W1Send? ==> s.q2.count < Q)
    ensures Conserved(NextW1(s, N, Q))
  {
    SumAppend(s.q2.msgs, s.num1 + s.num2);
  }

  lemma {:induction false} W2Conserves(s: State, N: nat, Q: nat)
    requires Conserved(s) && Enabled(s, StepW2, Q)
    ensures Conserved(NextW2(s, N, Q))
  {
  }

  lemma {:induction false} S1Counts(s: State, N: nat, Q: nat)
    requires N >= 2 && N % 2 == 0 && Q >= N && Inv(s, N) && Enabled(s, StepS1, Q)
    ensures Counters(NextS1(s, N, Q)) && Counts(NextS1(s, N, Q), N)
  {
  }

  lemma {:induction false} S1Order(s: State, N: nat, Q: nat)
    requires N >= 2 && N % 2 == 0 && Q >= N && Inv(s, N) && Enabled(s, StepS1, Q)
    ensures InOrder(NextS1(s, N, Q))
  {
  }

  lemma {:induction false} S1Control(s: State, N: nat, Q: nat)
    requires N >= 2 && N % 2 == 0 && Q >= N && Inv(s, N) && Enabled(s, StepS1, Q)
    ensures Control(NextS1(s, N, Q), N)
  {
  }

  lemma {:induction false} S1Releases(s: State, N: nat, Q: nat)
    requires Releases(s) && Enabled(s, StepS1, Q)
    ensures Releases(NextS1(s, N, Q))
  {
  }

  lemma {:induction false} S1Inv(s: State, N: nat, Q: nat)
    requires N >= 2 && N % 2 == 0 && Q >= N && Inv(s, N) && Enabled(s, StepS1, Q)
    ensures Inv(NextS1(s, N, Q), N)
  {
    NeverFull(s, N, Q);
    S1Conserves(s, N, Q);
    S1Counts(s, N, Q);
    S1Order(s, N, Q);
    S1Control(s, N, Q);
    S1Releases(s, N, Q);
  }

  lemma {:induction false} W1Counts(s: State, N: nat, Q: nat)
    requires N >= 2 && N % 2 == 0 && Q >= N && Inv(s, N) && Enabled(s, StepW1, Q)
    ensures Counters(NextW1(s, N, Q)) && Counts(NextW1(s, N, Q), N)
  {
  }

  lemma {:induction false} W1Order(s: State, N: nat, Q: nat)
    requires N >= 2 && N % 2 == 0 && Q >= N && Inv(s, N) && Enabled(s, StepW1, Q)
    ensures InOrder(NextW1(s, N, Q))
  {
  }

  lemma {:induction false} W1Control(s: State, N: nat, Q: nat)
    requires N >= 2 && N % 2 == 0 && Q >= N && Inv(s, N) && Enabled(s, StepW1, Q)
    ensures Control(NextW1(s, N, Q), N)
  {
  }

  lemma {:induction false} W1Uses(s: State, N: nat, Q: nat) returns (t: State)
    requires Enabled(s, StepW1, Q)
    ensures t == NextW1(s, N, Q) && UsedW1(t) == UsedW1(s)
    ensures t.ticks == s.ticks && t.seqCount == s.seqCount && t.semS1 == s.semS1 && t.count == s.count && t.s1 == s.s1
    ensures t.semW2 == s.semW2 && t.totalCount == s.totalCount && t.w2 == s.w2
  {
    t := NextW1(s, N, Q);
  }

  lemma {:induction false} W1Releases(s: State, N: nat, Q: nat)
    requires Releases(s) && Enabled(s, StepW1, Q)
    ensures Releases(NextW1(s, N, Q))
  {
    var t := W1Uses(s, N, Q);
    assert Releases(t);
  }

  lemma {:induction false} W1Inv(s: State, N: nat, Q: nat)
    requires N >= 2 && N % 2 == 0 && Q >= N && Inv(s, N) && Enabled(s, StepW1, Q)
    ensures Inv(NextW1(s, N, Q), N)
  {
    NeverFull(s, N, Q);
    W1Conserves(s, N, Q);
    W1Counts(s, N, Q);
    W1Order(s, N, Q);
    W1Control(s, N, Q);
    W1Releases(s, N, Q);
  }

  lemma {:induction false} W2Counts(s: State, N: nat, Q: nat)
    requires N >= 2 && N % 2 == 0 && Q >= N && Inv(s, N) && Enabled(s, StepW2, Q)
    ensures Counters(NextW2(s, N, Q)) && Counts(NextW2(s, N, Q), N)
  {
  }

  lemma {:induction false} W2Order(s: State, N: nat, Q: nat)
    requires N >= 2 && N % 2 == 0 && Q >= N && Inv(s, N) && Enabled(s, StepW2, Q)
    ensures InOrder(NextW2(s, N, Q))
  {
  }

  lemma {:induction false} W2Control(s: State, N: nat, Q: nat)
    requires N >= 2 && N % 2 == 0 && Q >= N && Inv(s, N) && Enabled(s, StepW2, Q)
    ensures Control(NextW2(s, N, Q), N)
  {
  }

  lemma {:induction false} W2Releases(s: State, N: nat, Q: nat)
    requires Releases(s) && Enabled(s, StepW2, Q)
    ensures Releases(NextW2(s, N, Q))
  {
  }

  lemma {:induction false} W2Inv(s: State, N: nat, Q: nat)
    requires N >= 2 && N % 2 == 0 && Q >= N && Inv(s, N) && Enabled(s, StepW2, Q)
    ensures Inv(NextW2(s, N, Q), N)
  {
    NeverFull(s, N, Q);
    W2Conserves(s, N, Q);
    W2Counts(s, N, Q);
    W2Order(s, N, Q);
    W2Control(s, N, Q);
    W2Releases(s, N, Q);
  }

  /** Every step of every thread and of the sequencer keeps the invariant. */
  lemma {:induction false} StepInv(s: State, a: Action, N: nat, Q: nat)
    requires N >= 2 && N % 2 == 0 && Q >= N && Inv(s, N) && Enabled(s, a, Q)
    ensures Inv(Next(s, a, N, Q), N)
  {
    match a {
      case Tick => TickInv(s, N);
      case StepS1 => S1Inv(s, N, Q);
      case StepW1 => W1Inv(s, N, Q);
      case StepW2 => W2Inv(s, N, Q);
    }
  }

  lemma {:induction false} RunStep(sched: seq<Action>, N: nat, Q: nat) returns (s: State, a: Action, t: State)
    requires sched != []
    ensures s == Run(sched[..|sched| - 1], N, Q) && t == Run(sched, N, Q)
    ensures t == if Enabled(s, a, Q) then Next(s, a, N, Q) else s
  {
    s, a, t := Run(sched[..|sched| - 1], N, Q), sched[|sched| - 1], Run(sched, N, Q);
  }

  /** So every interleaving does. */
  lemma {:induction false} RunInv(sched: seq<Action>, N: nat, Q: nat)
    requires N >= 2 && N % 2 == 0 && Q >= N
    ensures Inv(Run(sched, N, Q), N)
  {
    if sched == [] {
      InitFresh();
      FreshInv(Run(sched, N, Q), N);
    } else {
      RunInv(sched[..|sched| - 1], N, Q);
      var s, a, t := RunStep(sched, N, Q);
      if Enabled(s, a, Q) {
        StepInv(s, a, N, Q);
      }
    }
  }

  // ----- results -----

  predicate Finished(s: State) {
    s.s1.S1Exit? && s.w1.W1Exit? && s.w2.W2Exit?
  }

  /** No thread can take a step. */
  predicate Stuck(s: State, Q: nat) {
    !Enabled(s, StepS1, Q) && !Enabled(s, StepW1, Q) && !Enabled(s, StepW2, Q)
  }

  /** When W2 has finished, its total is 1 + 2 + ... + N; for N = 200 that is 20100. */
  lemma {:induction false} FinalTotal(sched: seq<Action>, N: nat, Q: nat)
    requires N >= 2 && N % 2 == 0 && Q >= N
    ensures var s := Run(sched, N, Q);
            s.w2.W2Exit? ==> s.totalSum == N * (N + 1) / 2
  {
    RunInv(sched, N, Q);
    TriangleClosed(N);
    var s := Run(sched, N, Q);
    if s.w2.W2Exit? {
      assert s.q1.msgs == [] && s.q2.msgs == [];
    }
  }

  /** Releases are available to a thread that waits for one. */
  predicate ReleasesAvailable(s: State) {
    && (s.s1.S1Wait? ==> s.semS1 > 0)
    && (s.w1.W1Wait? ==> s.semW1 > 0)
    && (s.w2.W2Wait? ==> s.semW2 > 0)
  }

  /** No deadlock: until all threads have finished, some thread can step if releases are available. */
  lemma {:induction false} Progress(s: State, N: nat, Q: nat)
    requires N >= 2 && N % 2 == 0 && Q >= N && Inv(s, N) && ReleasesAvailable(s)
    ensures Stuck(s, Q) <==> Finished(s)
  {
  }

  /** Ticks the sequencer needs to release every round of every thread. */
  function TicksNeeded(N: nat): nat {
    50 * N
  }

  lemma {:induction false} PostsEnough(n: nat, N: nat)
    requires N % 2 == 0 && n >= TicksNeeded(N)
    ensures Posts(n, 5) >= N && 2 * Posts(n, 10) >= N && Posts(n, 100) >= N / 2
  {
  }

  /** A run that has seen enough ticks and in which no thread can step any more is complete, with the right total. */
  lemma {:induction false} QuiescentIsComplete(sched: seq<Action>, N: nat, Q: nat)
    requires N >= 2 && N % 2 == 0 && Q >= N
    ensures var s := Run(sched, N, Q);
            s.ticks >= TicksNeeded(N) && Stuck(s, Q) ==> Finished(s) && s.totalSum == N * (N + 1) / 2
  {
    RunInv(sched, N, Q);
    FinalTotal(sched, N, Q);
    var s := Run(sched, N, Q);
    if s.ticks >= TicksNeeded(N) && Stuck(s, Q) {
      PostsEnough(s.ticks, N);
      Progress(s, N, Q);
    }
  }

  function RankS1(pc: S1Pc): nat {
    match pc
    case S1Loop => 5 case S1Wait => 4 case S1Send => 3 case S1JoinW1 => 4 case S1JoinW2 => 3 case S1Exit => 0
  }

  function RankW1(pc: W1Pc): nat {
    match pc
    case W1Loop => 7 case W1Wait => 6 case W1Take1 => 5 case W1Recv1 => 4
    case W1Take2 => 3 case W1Recv2 => 2 case W1Send => 1 case W1Exit => 0
  }

  function RankW2(pc: W2Pc): nat {
    match pc
    case W2Loop => 3 case W2Wait => 2 case W2Take => 1 case W2Recv => 0 case W2Exit => 0
  }

  /** Steps the threads can still take. */
  function Remaining(s: State, N: nat): int {
    3 * (N - s.count) + RankS1(s.s1) + 4 * (N - s.dequeued) + RankW1(s.w1) + 4 * (N / 2 - s.totalCount) + RankW2(s.w2)
  }

  lemma {:induction false} RemainingS1(s: State, N: nat, Q: nat)
    requires N >= 2 && Inv(s, N) && Enabled(s, StepS1, Q)
    ensures Remaining(NextS1(s, N, Q), N) < Remaining(s, N)
  {
  }

  lemma {:induction false} RemainingW1(s: State, N: nat, Q: nat)
    requires N >= 2 && Inv(s, N) && Enabled(s, StepW1, Q)
    ensures Remaining(NextW1(s, N, Q), N) < Remaining(s, N)
  {
  }

  lemma {:induction false} RemainingW2(s: State, N: nat, Q: nat)
    requires N >= 2 && Inv(s, N) && Enabled(s, StepW2, Q)
    ensures Remaining(NextW2(s, N, Q), N) < Remaining(s, N)
  {
  }

  /** Every thread step uses up one of a bounded supply; a tick uses none. So the threads stop. */
  lemma {:induction false} StepsAreBounded(s: State, a: Action, N: nat, Q: nat)
    requires N >= 2 && N % 2 == 0 && Q >= N && Inv(s, N) && Enabled(s, a, Q)
    ensures 0 <= Remaining(s, N)
    ensures a == Tick ==> Remaining(Next(s, a, N, Q), N) == Remaining(s, N)
    ensures a != Tick ==> Remaining(Next(s, a, N, Q), N) < Remaining(s, N)
  {
    match a {
      case Tick =>
      case StepS1 => RemainingS1(s, N, Q);
      case StepW1 => RemainingW1(s, N, Q);
      case StepW2 => RemainingW2(s, N, Q);
    }
  }

  /** Thread steps actually taken by a schedule. */
  function Taken(sched: seq<Action>, N: nat, Q: nat): nat {
    if sched == [] then 0 else
      var s := Run(sched[..|sched| - 1], N, Q);
      var a := sched[|sched| - 1];
      Taken(sched[..|sched| - 1], N, Q) + (if a != Tick && Enabled(s, a, Q) then 1 else 0)
  }

  lemma {:induction false} TakenBounded(sched: seq<Action>, N: nat, Q: nat)
    requires N >= 2 && N % 2 == 0 && Q >= N
    ensures Taken(sched, N, Q) + Remaining(Run(sched, N, Q), N) <= Remaining(Init(), N)
  {
    if sched != [] {
      var s := Run(sched[..|sched| - 1], N, Q);
      var a := sched[|sched| - 1];
      TakenBounded(sched[..|sched| - 1], N, Q);
      RunInv(sched[..|sched| - 1], N, Q);
      if Enabled(s, a, Q) {
        StepsAreBounded(s, a, N, Q);
      }
    }
  }

  lemma {:induction false} StoppedStep(s: State, a: Action, N: nat, Q: nat)
    requires Finished(s) && !s.running && Enabled(s, a, Q)
    ensures Next(s, a, N, Q) == s
  {
  }

  lemma {:induction false} FinishedStops(s: State, N: nat)
    requires Inv(s, N) && Finished(s)
    ensures !s.running
  {
  }

  /** One more action, ticks included, after all threads have finished. */
  lemma {:induction false} OneMoreAction(sched: seq<Action>, a: Action, N: nat, Q: nat)
    requires N >= 2 && N % 2 == 0 && Q >= N && Finished(Run(sched, N, Q))
    ensures Run(sched + [a], N, Q) == Run(sched, N, Q)
  {
    RunInv(sched, N, Q);
    FinishedStops(Run(sched, N, Q), N);
    var s, b, t := RunStep(sched + [a], N, Q);
    assert (sched + [a])[..|sched|] == sched;
    if Enabled(s, b, Q) {
      StoppedStep(s, b, N, Q);
    }
  }

  /** When all threads have finished nothing moves any more, timer signals included. */
  lemma {:induction false} FinishedStays(sched: seq<Action>, more: seq<Action>, N: nat, Q: nat)
    requires N >= 2 && N % 2 == 0 && Q >= N && Finished(Run(sched, N, Q))
    ensures Run(sched + more, N, Q) == Run(sched, N, Q)
    decreases |more|
  {
    if more == [] {
      assert sched + more == sched;
    } else {
      OneMoreAction(sched, more[0], N, Q);
      FinishedStays(sched + [more[0]], more[1..], N, Q);
      assert sched + more == sched + [more[0]] + more[1..];
    }
  }

  /** The run is stopped exactly when all threads have finished: nobody is stopped early. */
  lemma {:induction false} StoppedIsFinished(sched: seq<Action>, N: nat, Q: nat)
    requires N >= 2 && N % 2 == 0 && Q >= N
    ensures !Run(sched, N, Q).running <==> Finished(Run(sched, N, Q))
  {
    RunInv(sched, N, Q);
  }

  /** Release rates survive the wrap of the tick counter, so W1 never needs more than one item beyond
      what S1 has been released to send. */
  lemma {:induction false} ReleaseRates(sched: seq<Action>, N: nat, Q: nat)
    requires N >= 2 && N % 2 == 0 && Q >= N
    ensures var s := Run(sched, N, Q);
            && Releases(s) && s.seqCount == s.ticks % 500
            && 2 * Posts(s.ticks, 10) - 1 <= Posts(s.ticks, 5) <= 2 * Posts(s.ticks, 10)
  {
    RunInv(sched, N, Q);
  }
}
