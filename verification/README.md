# Verified models of the ecen5623 real-time exercises

This project models the algorithmic parts of the repository in Dafny and proves what they are meant to guarantee.
`dafny verify dfyconfig.toml` checks everything.

- **Scheduling** (`schedule/schedule.c`, `feasibility/feasibility_tests.c`). The simulator runs RM, EDF or LLF tick by
  tick over services with a period, a run time, a countdown `Deadline` and a counter `Runtime`, and counts missed
  deadlines; two analytic tests decide schedulability. The number of services, the periods, the run times and the number
  of ticks are arbitrary. Methods over arrays follow the loops (`Scheduler`, `Feasibility`); functions say what a run
  computes (`Schedule`); theorems about event traces (`Trace`, `Utilization`, `Edf`, `Optimal`, `Demand`, `Rm`,
  `Hyperperiod`, `Theorems`) relate the simulator, the tests and processor utilisation.
- **Hamming codes** (`hamming/hamming.c`, `hamming/hamming2.c`, `hamming2/ecclib.c`). Words are bit sequences and arrays,
  for every number M of check bits (`Bits`, `Hamming`, `Secded`, `HammingWord`). The hand-unrolled byte memory works on
  8-bit vectors and is shown to be the same code with M = 4 (`EccMemory`), and its reads are characterised after any
  history of writes, reads and bit flips (`EccHistory`).
- **Pipeline** (`exam2`): producer, summer, totaller and sequencer as interleaved steps over two queues and five
  semaphores (`Pipeline`), with the queue container and the sequencer as objects (`QueueObjects`).
- **Motion detector and event log** (`simple-capture`): a recogniser over unbounded frame streams (`Motion`) and a
  circular log with the scan of its dump (`MemLog`).

Conventions: integers are unbounded, with `INT_MAX` and 32-bit words written out where the code depends on them;
`ceil((double)a / (double)b)` is integer ceiling division; utilisation is written in integers as the sum of
`C * (H / T)` over a common multiple `H` of the periods, compared with `H`. Clock readings and the number of ticks are
parameters.

Where the code does not do what its text suggests, the model follows the code and the exact condition is proved:

- EDF starts its search from the sentinel `INT_MAX` with a strict comparison, so it does not see a service with period
  `INT_MAX` at its release. It never misses if and only if utilisation is at most one and the run times of these services
  add up to less than `INT_MAX` (`Theorems.EdfExact`, `Theorems.EdfSentinel`); for slack see `Theorems.SlackIndependent`.
- The completion-time iteration of a service stops if and only if the services before it use less than the whole
  processor, or exactly the whole and it has no work itself (`Feasibility.StopsExact`). Otherwise its exact iterates grow
  for ever.
- The number of ticks is hard-coded (`schedule/schedule.c:120-126`); a fixed number decides nothing for longer periods
  (`Theorems.FixedTicksBlind`), two hyperperiods decide everything (`Hyperperiod.TwoPeriodsDecide`).
- A service without work can fail the feasibility tests although it never misses (`Theorems.NoWorkNoFit`). RM is
  characterised by the services with work (`Theorems.RmExact`), the tests decide it if and only if those without work fit
  too (`Theorems.RmTestsRight`), and that is always so in rate-monotonic order (`Theorems.RmTestOrdered`).
- The correction of a wrong parity bit can only set it, in both codes: memory is repaired exactly when the true parity is
  odd (`Secded.ReadParityFlip`, `EccHistory.ReadKeeps`).
- Writing only sets bits: over stale contents a write yields the codeword exactly when the stale bits lie within it
  (`Secded.WriteExact`).
- A changed frame while counting is spent on starting over, so the pattern "one change, six quiet" does not always tick;
  it does exactly when the change armed the detector, which the frames alone decide (`Motion.ArmedExact`,
  `Motion.TickExact`, `Motion.InterruptedIsMissed`).
- `timespec_subtract` reports a zero difference as negative when the carry leaves a full second of nanoseconds
  (`MemLog.NegativeExact`, `MemLog.NegativeZero`); on normalised times it is exact.
- A comment expects UNKNOWN_ERROR for three or more errors (`hamming2/ecclib.c:99-101`), but that return is never reached:
  three errors can be reported as one, at a position that is right (`EccHistory.ThreeMisread`). What a read reports is
  proved for any number of errors (`EccHistory.ReadReports`).

## Model

| member | source | states |
|---|---|---|
| Scheduler.CheckDeadlines | schedule/schedule.c:141-154 | the expiry check resets every expired service in place and counts exactly those whose runtime is not their run time |
| Scheduler.RunRm | schedule/schedule.c:156-166 | the loop with its break runs the first pending service for one tick and nothing else |
| Scheduler.RunEdf | schedule/schedule.c:168-191 | the search runs the chosen service and records the deadline (or -1) of every service in the row of this tick |
| Scheduler.RunLlf | schedule/schedule.c:193-217 | the same for least laxity |
| Scheduler.ClockTick | schedule/schedule.c:220-223 | together with the run before it, one step of the service state |
| Scheduler.SetUp | schedule/schedule.c:112-117 | the services at the start: deadline equal to period, nothing run |
| Scheduler.Simulate | schedule/schedule.c:112-225 | the whole run: events, misses, final services and the stored deadlines or laxities are those of the protocol on this task set |
| Scheduler.Usage | schedule/schedule.c:293-305 | per-service usage and slack counts of a trace; together they are all the ticks |
| Schedule.Choose | schedule/schedule.c:156-217 | the choice is a running service of least key, least index among equals, and nothing only if no running service has a key below INT_MAX |
| Schedule.ReadyState | schedule/schedule.c:139-154 | after the expiry check at tick n, Deadline is the distance to the end of the current period and Runtime the ticks the current job has run, for any sequence of choices |
| Schedule.ChoiceAt | schedule/schedule.c:156-217 | in terms of the trace: RM runs the first pending service, EDF one with the earliest absolute deadline, LLF one of least laxity; only EDF ever idles over pending work, and only over services with period INT_MAX at their release, which it does not run either |
| Schedule.NoMisses | schedule/schedule.c:141-154 | a run of n ticks records no miss exactly when every job due before tick n received its full run time |
| Schedule.MissesCounted | schedule/schedule.c:141-154 | one expiry check counts every expired service that is short |
| Schedule.MissesExact | schedule/schedule.c:141-154 | the misses of a run of n ticks are as many as the jobs, pairs of service and deadline, that are due before tick n and did not receive their full run time |
| Schedule.StatExact | schedule/schedule.c:176-212 | in terms of the trace, the stored table holds the time to the deadline (EDF) or the laxity (LLF) of every service with work left, -1 for the others, and zeros under RM |
| Schedule.NeverComesRound | schedule/schedule.c:141-154 | a service with period zero or less is never reset: its countdown goes on below zero, and it records a miss only before the first tick, if the period is zero and there is work |
| Trace.WindowDemand | schedule/schedule.c:139-191 | the work of a service that lies in whole periods inside an interval is at most its share C/T of the interval |
| Edf.EdfMeets | schedule/schedule.c:168-191 | any trace that follows the EDF rule and idles over pending work at most at releases of services with period `top` meets every deadline when utilisation is at most one and those services do not fill `top` by themselves |
| Optimal.UrgencyOptimal | schedule/schedule.c:168-217 | exchange argument: if any choice of services completes every job of a hyperperiod in time, a work-conserving trace that always runs a service dominating by deadline or by laxity does too |
| Optimal.FeasibleUtil | schedule/schedule.c:139-154 | a choice that completes every job of a hyperperiod exists only if utilisation is at most one |
| Theorems.FeasibleIff | schedule/schedule.c:139-225 | a feasible choice over a hyperperiod exists if and only if utilisation is at most one |
| Theorems.DynamicOptimal | schedule/schedule.c:168-217 | if any choice of services completes every job of one hyperperiod, LLF never misses over any number of ticks, and EDF never misses exactly when the run times of period INT_MAX add up to less than INT_MAX |
| Theorems.EdfExact | schedule/schedule.c:139-191 | for all periods up to INT_MAX, EDF never misses, over any number of ticks, if and only if utilisation is at most one and the run times of the services with period INT_MAX add up to less than INT_MAX |
| Theorems.EdfExactBelow | schedule/schedule.c:139-191 | so for periods below INT_MAX, if and only if utilisation is at most one |
| Theorems.LlfExact | schedule/schedule.c:193-217 | LLF never misses, over any number of ticks, if and only if utilisation is at most one |
| Theorems.EdfSentinel | schedule/schedule.c:172-180 | a single service of period INT_MAX, with utilisation at most one, misses under EDF exactly when it is fully loaded |
| Theorems.Verdict | schedule/schedule.c:125-127 | with two hyperperiods of ticks the reported misses are zero exactly when every service with work fits at its level (RM), utilisation is at most one (LLF), or utilisation is at most one and the run times of period INT_MAX stay below INT_MAX (EDF) |
| Theorems.FixedTicksBlind | schedule/schedule.c:120-126 | a fixed number of ticks shows no miss for an overloaded service of longer period |
| Hyperperiod.ReadyAtHyper | schedule/schedule.c:141-154 | after a hyperperiod the expiry check restores the initial services whatever ran and whatever was missed |
| Hyperperiod.EventsRepeat | schedule/schedule.c:125-127 | events[t + H] equals events[t] under every protocol |
| Hyperperiod.MissesRepeat | schedule/schedule.c:130-154 | every further hyperperiod records as many misses as the first |
| Hyperperiod.TwoPeriodsDecide | schedule/schedule.c:125-127 | a run of two hyperperiods reports no miss if and only if no run of any length does |
| Theorems.SlackExact | schedule/schedule.c:156-217 | while no misses are recorded, over any number of ticks, two protocols idle in the same ticks if and only if both or neither ever idled over pending work |
| Theorems.LosesFirst | schedule/schedule.c:172-180 | over as many ticks as an int counts, EDF idles over pending work exactly when all the work there is belongs to services with period INT_MAX |
| Theorems.SlackIndependent | schedule/schedule.c:156-217 | over as many ticks as an int counts and while no misses are recorded, two protocols idle in exactly the same ticks unless just one of them is EDF and all the work belongs to services with period INT_MAX |
| Rm.ResponseWithin | schedule/schedule.c:156-166 | critical instant: if the demand at a level fits in x ticks, x at most the period, every job of that service finishes within x ticks of its release, whatever the other services do |
| Rm.FirstJob | schedule/schedule.c:156-166 | when the services before it have not missed, the first job of a service finishes exactly at some x at which the demand of its level fits |
| Theorems.RmExact | schedule/schedule.c:141-166 | RM never misses if and only if every service with work has a time within its period that covers the demand at its level |
| Theorems.RmTestsRight | feasibility/feasibility_tests.c:142-230 | the answer of the tests, that every service fits, is the same as RM never missing if and only if, when the services with work fit, those without fit too |
| Rm.OrderedFit | feasibility/feasibility_tests.c:142-230 | with periods non-decreasing in index, the services with work fit if and only if all do |
| Theorems.RmTestOrdered | feasibility/feasibility_tests.c:142-230 | in that order, whatever the run times, RM never misses, and a run of two hyperperiods shows no miss, if and only if every service fits |
| Theorems.RmTestExact | feasibility/feasibility_tests.c:142-230 | in any order the same holds when every service has work |
| Theorems.FitBoundsUtil | feasibility/feasibility_tests.c:142-230 | a set that the tests accept has utilisation at most one, so every overloaded set is refused |
| Theorems.NoWorkNoFit | feasibility/feasibility_tests.c:156-183 | a service with run time zero can fail the test although RM never misses |
| Theorems.ExactResponse | feasibility/feasibility_tests.c:152-184 | if RM never misses, the least time covering the demand is the exact worst response: at most the period, a bound for every job, attained by the first |
| Feasibility.StopsExact | feasibility/feasibility_tests.c:154-176 | the successive values of an reach a fixed point if and only if the services before this one use less than the whole processor, or exactly the whole and it has no work |
| Feasibility.CompletionTime | feasibility/feasibility_tests.c:154-176 | where it stops, the iteration yields the least time from the load on that covers the demand, which is a fixed point; with utilisation at most one up to this level it is at most the hyperperiod |
| Feasibility.Demanded | feasibility/feasibility_tests.c:165-168 | one iterate is the run time plus the ceilings of the higher-priority services |
| Feasibility.CompletionTimeFeasibility | feasibility/feasibility_tests.c:142-187 | on every set on which its loops stop, overloaded ones included, true if and only if the demand of every service is covered by its deadline |
| Feasibility.CompletionIsResponse | feasibility/feasibility_tests.c:154-176 | for a service with work the iteration's result is the least positive time that covers its demand |
| Feasibility.PointLoad | feasibility/feasibility_tests.c:208-215 | the load at a scheduling point |
| Feasibility.PointsOf | feasibility/feasibility_tests.c:204-224 | the inner loop finds a fitting multiple of one period if and only if there is one |
| Feasibility.PointsSuffice | feasibility/feasibility_tests.c:198-226 | some tried point fits if and only if some time within the period does |
| Feasibility.SchedulingPointFeasibility | feasibility/feasibility_tests.c:193-230 | true if and only if every service fits, for every task set |
| Feasibility.TestsAgree | feasibility/feasibility_tests_updated.c:64-150 | with deadlines equal to periods the conditions the two tests decide are the same |
| Hamming.SyndromeZero | hamming/hamming.c:160-185 | the accumulated check value is zero exactly when every check is even, and never exceeds the word length |
| Hamming.WholeIsOdd | hamming/hamming2.c:248-270 | the whole-word parity is set exactly when the number of set code bits is odd |
| Hamming.SyndromeIsXor | hamming/hamming.c:160-185 | for every word the accumulated check value is the XOR of the 1-based positions of its set bits |
| Hamming.SyndromeFlip | hamming/hamming.c:148-172 | flipping a code bit of any word XORs its position into the accumulated value; flipping any later bit leaves it |
| Hamming.SyndromeIsPosition | hamming/hamming.c:148-172 | after flipping one bit of a word with even checks the accumulated value is its position |
| Hamming.SyndromeOfTwo | hamming/hamming2.c:147-152 | two flips of code bits never cancel in the checks: the accumulated value is the XOR of their positions and not zero |
| Hamming.LayoutBijection | hamming/hamming2.c:164-197 | the placement loops visit every index that holds no check bit exactly once, in increasing order, 2^M - M - 1 in all |
| Hamming.LayoutAt | hamming/hamming.c:188-210 | the index at which the nested loops place bit i of group p |
| Secded.GeneratorTest | hamming/hamming.c:117-152 | the word generated from zero has all checks even, and flipping bit r makes the accumulated value r + 1 |
| Secded.WrittenBits | hamming/hamming2.c:164-270 | a write ORs the value into the data bits, clears nothing, and ORs the parity of the finished word into the parity bit |
| Secded.WrittenChecks | hamming/hamming2.c:199-246 | over any contents, a write leaves a check bit set if and only if it was set before or the other bits it covers are odd |
| Secded.WrittenFrame | hamming/hamming2.c:129-133 | a write leaves the bits between code bits and parity bit alone |
| Secded.WriteClear | hamming/hamming2.c:129-133 | writing into a clear word leaves even checks, the right parity bit and the value in the data bits |
| Secded.WriteExact | hamming/hamming2.c:129-133 | over any contents a write leaves the codeword of the value if and only if every relevant bit already set belongs to it |
| Secded.ReadClean | hamming/hamming2.c:135-146 | an undamaged word reads 1 and its value and is unchanged |
| Secded.ReadOneFlip | hamming/hamming2.c:147-159 | any one flipped code bit is corrected in value and memory |
| Secded.ReadParityFlip | hamming/hamming2.c:140-146 | a flipped parity bit leaves the value right; memory is repaired exactly when the true parity is odd and unchanged otherwise |
| Secded.ReadTwoFlips | hamming/hamming2.c:147-152 | any two distinct flips are reported with -1 and nothing changes |
| Secded.ReadSettles | hamming/hamming2.c:135-162 | for every word: a read changes at most one bit, and unless it gives up it leaves even checks and returns the data bits it leaves; if it gives up nothing changes |
| Secded.ReadTwice | hamming/hamming2.c:135-162 | for every word, a second read reports, returns and leaves the same as the first |
| Secded.SecdedRoundTrip | hamming/hamming2.c:129-162 | single error correction and double error detection for every M: write into a clear word, damage, read |
| HammingWord.CheckXor | hamming/hamming2.c:203-219 | the inner loop computes the XOR of the covered positions, and the counted parity agrees with it |
| HammingWord.WordParity | hamming/hamming2.c:248-270 | the parity of the code bits, ORed into the parity bit by a write |
| HammingWord.ApplyParity | hamming/hamming2.c:199-246 | a write adds the check bits one after the other and the parity; a read returns the syndrome and changes nothing |
| HammingWord.WriteData | hamming/hamming2.c:164-197 | the nested loops OR the value into the layout positions and touch nothing else |
| HammingWord.ReadData | hamming/hamming2.c:164-197 | the nested loops gather the layout positions; bits beyond the value's width are dropped |
| HammingWord.WriteWHamming | hamming/hamming2.c:129-133 | the whole write, in place |
| HammingWord.ReadWHamming | hamming/hamming2.c:135-162 | the whole read, in place: return code, value and memory are those of the decoder |
| EccMemory.FreshCarries | hamming2/ecclib.c:111-177 | the unrolled bit expressions of get_codeword produce a codeword of the general code with four check bits that carries the byte |
| EccMemory.WriteRefines | hamming2/ecclib.c:111-177 | P01 to P04 and PW are the check bits and the parity that the general write computes |
| EccMemory.EncodedMark | hamming2/ecclib.c:172-175 | beyond check bits and parity the code byte holds only the encoded mark |
| EccMemory.SyndromeRefines | hamming2/ecclib.c:38-40 | the byte syndrome read as a number is the general syndrome, for every content of the cell |
| EccMemory.ParityRefines | hamming2/ecclib.c:42-58 | stored and recomputed parity agree exactly when the general code's do |
| EccMemory.ReadRefines | hamming2/ecclib.c:70-101 | the return code of a read follows from the general syndrome and parity, for every content of the cell |
| EccMemory.ReadDecodes | hamming2/ecclib.c:70-101 | the general decoder gives up exactly when a read returns DOUBLE_BIT_ERROR, flips exactly the position a read returns, and otherwise leaves the word that the read leaves |
| EccMemory.ReadFrame | hamming2/ecclib.c:76-83 | for every cell a read changes nothing but the parity bit of the code byte, only on PW_ERROR and only by setting it; data, check bits and mark stay |
| EccMemory.FlipRefines | hamming2/ecctest.c:86-174 | flip_bit at position 0 to 12 flips exactly one bit of the word |
| EccMemory.FlipFrame | hamming2/ecctest.c:86-174 | of the sixteen bits of data and code byte flip_bit changes exactly the one of its position, and none for a position out of range |
| EccHistory.Memory.EnableEccMemory | hamming2/ecclib.c:105-109 | clears every code byte and no data byte |
| EccHistory.Memory.WriteByte | hamming2/ecclib.c:15-31 | returns NO_ERROR and makes this one cell fresh |
| EccHistory.Memory.ReadByte | hamming2/ecclib.c:34-102 | the return code of the cell, and at most the parity bit of this one cell changes |
| EccHistory.Memory.FlipBitAt | hamming2/ecctest.c:86-174 | flips one bit of this one cell, nothing for a position out of range |
| EccHistory.ReadReports | hamming2/ecclib.c:70-101 | with any number of errors the XOR of the positions in error and whether their number is even determine what a read reports |
| EccHistory.ReportFew | hamming2/ecctest.c:22-75 | up to two errors are told apart: 0, -1 for the parity bit, the position 1 to 12, or -3 |
| EccHistory.ThreeMisread | hamming2/ecclib.c:99-101 | three errors can be reported as one at a position that is right, or as a parity error |
| EccHistory.ReadKeeps | hamming2/ecclib.c:76-83 | with any number of errors a read changes a cell only when it reports PW_ERROR, and then leaves the parity bit set: an error there is repaired or made according to the true parity |
| EccHistory.HistoryInvariant | hamming2/ecclib.c:15-102 | after any history of writes, reads and flips on any cells, a written cell differs from a fresh one exactly in the recorded positions and still bears the mark |
| EccHistory.DiffersDetermines | hamming2/ecclib.c:15-102 | byte written, positions in error and mark determine both bytes of the cell |
| EccHistory.HistoryReads | hamming2/ecctest.c:22-75 | so every read of it reports what those errors determine, whatever happened to other cells |
| Pipeline.StepInv | exam2/sequencer.c:188-347 | every step of S1, W1, W2 and the sequencer keeps conservation, the counters, the order of messages, the control state and the accounting of releases |
| Pipeline.RunInv | exam2/sequencer.c:188-347 | so every interleaving does |
| Pipeline.NeverFull | exam2/queue.c:92-95 | a thread about to send finds room: the full-queue guard never fires |
| Pipeline.FinalTotal | exam2/sequencer.c:312-316 | when W2 has finished its total is N(N+1)/2 |
| Pipeline.Progress | exam2/sequencer.c:193-318 | while releases are available, no thread can step if and only if all have finished |
| Pipeline.QuiescentIsComplete | exam2/sequencer.c:188-347 | after 50 N running ticks a run in which no thread can step is complete and has the right total |
| Pipeline.StoppedIsFinished | exam2/sequencer.c:213-217 | running is cleared if and only if all three threads have finished |
| Pipeline.FinishedStays | exam2/sequencer.c:326 | once all threads have finished no further schedule changes the state: later timer signals post nothing and do not count |
| Pipeline.StepsAreBounded | exam2/sequencer.c:188-319 | every thread step uses up one of a bounded supply, so the threads stop |
| Pipeline.TakenBounded | exam2/sequencer.c:188-319 | no schedule makes the threads take more steps than that supply |
| Pipeline.ReleaseRates | exam2/sequencer.c:321-347 | despite the wrap at 500 the releases after n ticks are n/5, n/10 and n/100 rounded up, and W1 never needs more than one item beyond those S1 was released to send |
| QueueObjects.Container.EnqueueP | exam2/queue.c:88-119 | sends exactly when the counter is not at capacity, the pointer is not null and the queue has room; a failed send still raises the counter |
| QueueObjects.Container.AnnounceDequeue | exam2/queue.c:121-128 | the counter goes down before the receive |
| QueueObjects.Container.CompleteDequeue | exam2/queue.c:130-145 | the oldest message is taken |
| QueueObjects.Sequencer.Tick | exam2/sequencer.c:321-347 | one signal changes semaphores and counter as the pipeline's tick does, and nothing after the stop |
| Motion.Detector.NextMotionState | simple-capture/motion.c:12-60 | the state update in place and the tick |
| Motion.PhaseExplained | simple-capture/motion.c:12-60 | what each state says about the frames seen: START exactly until nine unchanged in a row, COUNTING after one change and that many unchanged |
| Motion.ArmedExact | simple-capture/motion.c:24-55 | BOOKEND is a property of the frames: the last one changed, nine in a row were unchanged before it, and it did not come one to five unchanged frames after a change that armed the detector |
| Motion.TickExact | simple-capture/motion.c:36-55 | a frame ticks if and only if it is the sixth unchanged one after a change that armed the detector, in terms of the frames alone |
| Motion.TickShape | simple-capture/motion.c:24-55 | a tick needs at least sixteen frames, the last seven being one changed and six unchanged |
| Motion.TicksApart | simple-capture/motion.c:42-55 | two ticks are at least seven frames apart |
| Motion.BurstTicksOnce | simple-capture/motion.c:30-55 | once settled, at least two changes in a row, or one that does not interrupt the count, and then six unchanged frames tick exactly once, at the last frame |
| Motion.InterruptedIsMissed | simple-capture/motion.c:45-48 | a single change that interrupts the count is followed by no tick although the last seven frames have the shape |
| MemLog.TimespecSubtract | simple-capture/timetools.c:13-37 | y is adjusted in place and keeps its total; the difference is taken field by field from the adjusted y, has the right total and nanoseconds between zero and one second |
| MemLog.AdjustedKeeps | simple-capture/timetools.c:17-27 | for all operands the carry keeps the total of y and leaves zero to one second of nanoseconds, exactly one in the stated cases |
| MemLog.AdjustedUnique | simple-capture/timetools.c:17-27 | and no other value of y does |
| MemLog.NegativeExact | simple-capture/timetools.c:18-36 | for any operands the result is negative exactly when x is before y, or equal with a full second of nanoseconds left |
| MemLog.NegativeNormal | simple-capture/timetools.c:36 | exact on normalised operands |
| MemLog.NegativeZero | simple-capture/timetools.c:24-36 | a zero difference reported as negative |
| MemLog.EncodeExact | simple-capture/memlog.h:50-55 | a 24-bit entry decodes to event and data if and only if the event id is at most 0xff |
| MemLog.EncodeSpills | simple-capture/memlog.h:50-55 | for any event id the entry decodes to its low eight bits, and the rest is added to the data modulo 2^24 |
| MemLog.EntryVisited | simple-capture/memlog.c:66-92 | the scan skips a 24-bit entry exactly when its event id is a multiple of 256 |
| MemLog.Log.MemlogLog | simple-capture/memlog.c:29-37 | the log holds the history extended by this event |
| MemLog.Log.MemlogLog24 | simple-capture/memlog.c:39-51 | the log holds the history extended by the encoded entry |
| MemLog.Log.Dump | simple-capture/memlog.c:54-92 | the value of not_increasing for every slot the scan visits |
| MemLog.DumpOrder | simple-capture/memlog.c:66-92 | with ordered normalised times a slot is found not increasing if and only if the log has wrapped, it is the first one visited at or after the wrap index, and its time is strictly before the one it is compared with |
| MemLog.OneFlagAtMost | simple-capture/memlog.c:66-92 | so at most one slot is |

## Left out

- Thread loops S1, W1, W2: modelled as steps of a state machine on values, not as loops over shared variables; each completed send and receive is one step and `q->count` changes atomically, so interleaving inside enqueue_P and dequeue_P and their shared buffer is not modelled.
- Interrupted or failing semaphore waits and the ctrl_c handler: not modelled; neither are send timeouts in the pipeline, which need a full queue.
- 32-bit wrap-around of the completion-time iterates and of the scheduling-point sums: the sums are exact integers.
- Feasibility.CompletionTime: requires the condition of Feasibility.StopsExact, without which no exact iterate is a fixed point and the source's loop can end only by wrapping.
- Feasibility.CompletionTimeFeasibility: requires that condition at every level, for the same reason.
- Theorems.SlackIndependent: is about at most INT_MAX ticks, because the source counts ticks in an int; Theorems.SlackExact has no such bound.
- The final assertion of get_check_bits (hamming/hamming.c:183) aborts on a detected error; the model returns the value.
- The mark of a dump line: `not_increasing` is modelled for every visited slot, though entries with data print their data instead of the mark.
- The int range of the carried seconds in timespec_subtract: `1000000000 * nsec` is an exact product in the model.
- Printing, argument parsing, event descriptions, file output, `usage` percentages and the Liu-Layland bound via `pow`: no integer content beyond the counts that are modelled.
- Uninitialised memory: `cpu_usage` starts at zero, and `read_byte` never stores through `byteRead`, so only return codes and memory are modelled.
- Camera capture, image processing, queues and sequencers of simple-capture, jitter and the exercises: operating-system plumbing or per-pixel arithmetic.
- Deadlock, priority-inversion and sieve demonstrations: fixed small scenarios.
