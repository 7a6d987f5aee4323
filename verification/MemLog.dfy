/** The circular event log: which events it holds, how 24-bit entries decode, and what the scan of a dump
    finds out of order. */
module MemLog {

  const MEMLOG_MAX: nat := 1024
  const NS_PER_SEC: int := 1_000_000_000
  const WORD: nat := 0x1_0000_0000

  const MEMLOG_E_NONE: nat := 0
  const MEMLOG_E_ADATA_24: nat := 0x20

  // ----- time -----

  datatype Time = Time(sec: int, nsec: int)

  function Total(t: Time): int {
    t.sec * NS_PER_SEC + t.nsec
  }

  predicate Normal(t: Time) {
    0 <= t.nsec < NS_PER_SEC
  }

  class Timespec {
    var tv_sec: int
    var tv_nsec: int

    constructor (t: Time)
      ensures Value() == t
    {
      tv_sec := t.sec;
      tv_nsec := t.nsec;
    }

    function Value(): Time
      reads this
    {
      Time(tv_sec, tv_nsec)
    }
  }

  /** y with seconds carried to or from its nanoseconds until the nanoseconds of x - y are in 0 .. 10^9. */
  function Carried(x: Time, y: Time): Time {
    if x.nsec < y.nsec then
      var n := (y.nsec - x.nsec) / NS_PER_SEC + 1;
      Time(y.sec + n, y.nsec - NS_PER_SEC * n)
    else y
  }

  function Borrowed(x: Time, y: Time): Time {
    if x.nsec - y.nsec > NS_PER_SEC then
      var n := (x.nsec - y.nsec) / NS_PER_SEC;
      Time(y.sec - n, y.nsec + NS_PER_SEC * n)
    else y
  }

  function Adjusted(x: Time, y: Time): Time {
    Borrowed(x, Carried(x, y))
  }

  /** Subtract in place: y is adjusted, result is the difference, and the return value says "negative". */
  method TimespecSubtract(result: Timespec, x: Timespec, y: Timespec) returns (negative: bool)
    requires result != x && result != y && x != y
    modifies result, y
    ensures y.Value() == Adjusted(x.Value(), old(y.Value()))
    ensures Total(y.Value()) == Total(old(y.Value()))
    ensures result.Value() == Time(x.tv_sec - y.tv_sec, x.tv_nsec - y.tv_nsec)
    ensures Total(result.Value()) == Total(x.Value()) - Total(old(y.Value()))
    ensures 0 <= result.tv_nsec <= NS_PER_SEC
    ensures negative <==> x.tv_sec < y.tv_sec
  {
    if x.tv_nsec < y.tv_nsec {
      var nsec := (y.tv_nsec - x.tv_nsec) / NS_PER_SEC + 1;
      y.tv_nsec := y.tv_nsec - NS_PER_SEC * nsec;
      y.tv_sec := y.tv_sec + nsec;
    }
    if x.tv_nsec - y.tv_nsec > NS_PER_SEC {
      var nsec := (x.tv_nsec - y.tv_nsec) / NS_PER_SEC;
      y.tv_nsec := y.tv_nsec + NS_PER_SEC * nsec;
      y.tv_sec := y.tv_sec - nsec;
    }
    result.tv_sec := x.tv_sec - y.tv_sec;
    result.tv_nsec := x.tv_nsec - y.tv_nsec;
    negative := x.tv_sec < y.tv_sec;
  }

  /** Subtraction says "negative". */
  predicate Negative(x: Time, y: Time) {
    x.sec < Adjusted(x, y).sec
  }

  /** The nanoseconds of x exceed those of y by one second, or fall short by whole seconds: the carry then leaves
      a full second of nanoseconds in the difference. */
  predicate FullSecond(x: Time, y: Time) {
    x.nsec - y.nsec == NS_PER_SEC || (x.nsec < y.nsec && (y.nsec - x.nsec) % NS_PER_SEC == 0)
  }

  /** The carry moves whole seconds: y keeps its total, and the nanoseconds left to subtract are between zero and one
      second, a full second exactly when FullSecond says so. */
  lemma {:induction false} AdjustedKeeps(x: Time, y: Time)
    ensures Total(Adjusted(x, y)) == Total(y)
    ensures 0 <= x.nsec - Adjusted(x, y).nsec <= 1_000_000_000
    ensures x.nsec - Adjusted(x, y).nsec == 1_000_000_000 <==> FullSecond(x, y)
  {
  }

  /** Which determines it: an adjusted y can be no other time. */
  lemma {:induction false} AdjustedUnique(x: Time, y: Time, z: Time)
    requires Total(z) == Total(y) && 0 <= x.nsec - z.nsec <= 1_000_000_000
    requires x.nsec - z.nsec == 1_000_000_000 <==> FullSecond(x, y)
    ensures z == Adjusted(x, y)
  {
    AdjustedKeeps(x, y);
  }

  /** For any operands, normalised or not, "negative" is right except when a full second of nanoseconds is left and
      the totals are equal: then a zero difference is reported as negative. */
  lemma {:induction false} NegativeExact(x: Time, y: Time)
    ensures Negative(x, y) <==> Total(x) < Total(y) || (Total(x) == Total(y) && FullSecond(x, y))
  {
  }

  /** On normalised operands it is exact. */
  lemma {:induction false} NegativeNormal(x: Time, y: Time)
    requires Normal(x) && Normal(y)
    ensures Negative(x, y) <==> Total(x) < Total(y)
  {
  }

  /** A zero difference that is reported as negative. */
  lemma {:induction false} NegativeZero()
    ensures var x, y := Time(0, 1_000_000_000), Time(1, 0); Total(x) == Total(y) && Negative(x, y)
  {
  }

  // ----- entries -----

  datatype Entry = Entry(id: nat, time: Time)

  const EMPTY: Entry := Entry(0, Time(0, 0))

  function MemlogId(x: nat): nat {
    x % 0x100
  }

  function MemlogData24(x: nat): nat {
    x / 0x100
  }

  /** event + (data << 8) in 32 bits. */
  function Encode24(event: nat, data: nat): nat {
    (event + data * 0x100 % WORD) % WORD
  }

  /** A 24-bit entry decodes to what was encoded if and only if the event id fits in eight bits. */
  lemma {:induction false} EncodeExact(event: nat, data: nat)
    requires event < WORD && data < 0x100_0000
    ensures MemlogId(Encode24(event, data)) == event && MemlogData24(Encode24(event, data)) == data <==> event <= 0xff
  {
  }

  /** In general the upper digits of the event id spill into the data. */
  lemma {:induction false} EncodeSpills(event: nat, data: nat)
    requires event < WORD && data < 0x100_0000
    ensures MemlogId(Encode24(event, data)) == event % 0x100
    ensures MemlogData24(Encode24(event, data)) == (data + event / 0x100) % 0x100_0000
  {
  }

  // ----- the log -----

  class Log {
    var index: nat
    const log: array<Entry>

    constructor ()
      ensures Valid() && fresh(log) && Holds([])
    {
      index := 0;
      log := new Entry[MEMLOG_MAX](_ => EMPTY);
    }

    predicate Valid()
      reads this
    {
      index < MEMLOG_MAX && log.Length == MEMLOG_MAX
    }

    /** After the calls `h`: the latest MEMLOG_MAX events are in their slots, the slots never reached are empty. */
    ghost predicate Holds(h: seq<Entry>)
      reads this, log
    {
      Valid() && index == |h| % MEMLOG_MAX && Slots(h, log[..])
    }

    method MemlogLog(event: nat, now: Time, ghost h: seq<Entry>)
      requires event < WORD && Holds(h)
      modifies this, log
      ensures Holds(h + [Entry(event, now)])
    {
      SlotStep(h, log[..], Entry(event, now));
      log[index] := Entry(event, now);
      index := index + 1;
      if index >= MEMLOG_MAX {
        index := 0;
      }
    }

    method MemlogLog24(event: nat, data: nat, now: Time, ghost h: seq<Entry>)
      requires MEMLOG_E_ADATA_24 <= event < WORD && data < 0x100_0000 && Holds(h)
      modifies this, log
      ensures Holds(h + [Entry(Encode24(event, data), now)])
    {
      SlotStep(h, log[..], Entry(Encode24(event, data), now));
      log[index] := Entry(Encode24(event, data), now);
      index := index + 1;
      if index >= MEMLOG_MAX {
        index := 0;
      }
    }

    /** The scan of a dump: for every slot whether it is visited and found not increasing. */
    method Dump() returns (flags: seq<bool>)
      requires Valid()
      ensures flags == Flags(log[..], MEMLOG_MAX)
    {
      var before := log[0].time;
      flags := [];
      for i := 0 to MEMLOG_MAX
        invariant |flags| == i && flags == Flags(log[..], i) && before == Previous(log[..], i)
      {
        if MemlogId(log[i].id) > MEMLOG_E_NONE {
          var t := new Timespec(log[i].time);
          var prev := new Timespec(before);
          var diff := new Timespec(Time(0, 0));
          var notIncreasing := TimespecSubtract(diff, t, prev);
          flags := flags + [notIncreasing];
          before := log[i].time;
        } else {
          flags := flags + [false];
        }
      }
    }
  }

  /** Slot k holds event number j of the history. */
  ghost predicate Slots(h: seq<Entry>, slots: seq<Entry>) {
    && |slots| == MEMLOG_MAX
    && (forall j: nat :: j < |h| && |h| - MEMLOG_MAX <= j ==> slots[j % MEMLOG_MAX] == h[j])
    && (forall k: nat :: |h| <= k < MEMLOG_MAX ==> slots[k] == EMPTY)
  }

  lemma {:induction false} SlotStep(h: seq<Entry>, slots: seq<Entry>, e: Entry)
    requires Slots(h, slots)
    ensures Slots(h + [e], slots[|h| % MEMLOG_MAX := e])
    ensures (|h| + 1) % MEMLOG_MAX == if |h| % MEMLOG_MAX + 1 == MEMLOG_MAX then 0 else |h| % MEMLOG_MAX + 1
  {
  }

  // ----- the scan -----

  /** The scan visits the slots whose event id is not NONE. */
  predicate Visited(slots: seq<Entry>, i: nat)
    requires i < |slots|
  {
    MemlogId(slots[i].id) > MEMLOG_E_NONE
  }

  /** A 24-bit entry is skipped exactly when its event id is a multiple of 256, whatever its data. */
  lemma {:induction false} EntryVisited(slots: seq<Entry>, i: nat, event: nat, data: nat)
    requires i < |slots| && event < WORD && data < 0x100_0000 && slots[i].id == Encode24(event, data)
    ensures Visited(slots, i) <==> event % 0x100 != 0
  {
    EncodeSpills(event, data);
  }

  /** The time the scan compares slot i with. */
  function Previous(slots: seq<Entry>, i: nat): Time
    requires 0 < |slots| && i <= |slots|
  {
    if i == 0 then slots[0].time else if Visited(slots, i - 1) then slots[i - 1].time else Previous(slots, i - 1)
  }

  function Flags(slots: seq<Entry>, n: nat): (f: seq<bool>)
    requires 0 < |slots| && n <= |slots|
    ensures |f| == n
    ensures forall i :: 0 <= i < n ==> f[i] == (Visited(slots, i) && Negative(slots[i].time, Previous(slots, i)))
  {
    if n == 0 then [] else
      Flags(slots, n - 1) + [Visited(slots, n - 1) && Negative(slots[n - 1].time, Previous(slots, n - 1))]
  }

  /** Logged times are normalised and never go back. */
  predicate Ordered(h: seq<Entry>) {
    && (forall j :: 0 <= j < |h| ==> Normal(h[j].time))
    && (forall j, k :: 0 <= j <= k < |h| ==> Total(h[j].time) <= Total(h[k].time))
  }

  /** The number of the event in slot k. */
  function EventIn(n: nat, k: nat): int
    requires k < MEMLOG_MAX
  {
    if k < n % MEMLOG_MAX then n - n % MEMLOG_MAX + k else n - n % MEMLOG_MAX - MEMLOG_MAX + k
  }

  lemma {:induction false} SlotContents(h: seq<Entry>, slots: seq<Entry>, k: nat)
    requires Slots(h, slots) && k < MEMLOG_MAX
    ensures Visited(slots, k) ==> 0 <= EventIn(|h|, k) < |h| && slots[k] == h[EventIn(|h|, k)]
  {
  }

  /** The time that slot i is compared with is that of slot 0 or of the nearest visited slot before it. */
  lemma {:induction false} PreviousIs(slots: seq<Entry>, i: nat) returns (k: nat)
    requires 0 < |slots| && i <= |slots|
    ensures k < |slots| && k <= i && Previous(slots, i) == slots[k].time
    ensures k == 0 || (k < i && Visited(slots, k))
    ensures forall m: nat :: k < m < i ==> !Visited(slots, m)
    ensures k == 0 && i > 0 && !Visited(slots, 0) ==> forall m: nat :: m < i ==> !Visited(slots, m)
  {
    if i == 0 {
      k := 0;
    } else if Visited(slots, i - 1) {
      k := i - 1;
    } else {
      k := PreviousIs(slots, i - 1);
    }
  }

  lemma {:induction false} FirstSlot(h: seq<Entry>, slots: seq<Entry>)
    requires Slots(h, slots) && h != []
    ensures 0 <= EventIn(|h|, 0) < |h| && slots[0] == h[EventIn(|h|, 0)]
  {
  }

  /** Later slots hold earlier events only across the index where the log wrapped. */
  lemma {:induction false} EventsTurn(n: nat, k: nat, i: nat)
    requires k <= i < MEMLOG_MAX && 0 <= EventIn(n, i) < EventIn(n, k)
    ensures n > MEMLOG_MAX && k < n % MEMLOG_MAX <= i
  {
  }

  /** A visited slot whose time is before the one it is compared with. */
  lemma {:induction false} BackwardSlot(h: seq<Entry>, slots: seq<Entry>, i: nat)
    requires Slots(h, slots) && Ordered(h) && i < MEMLOG_MAX && Visited(slots, i)
    ensures Normal(slots[i].time) && Normal(Previous(slots, i))
    ensures Total(slots[i].time) < Total(Previous(slots, i)) ==>
              && |h| > MEMLOG_MAX && i >= |h| % MEMLOG_MAX
              && forall m: nat :: |h| % MEMLOG_MAX <= m < i ==> !Visited(slots, m)
  {
    var k := PreviousIs(slots, i);
    SlotContents(h, slots, i);
    FirstSlot(h, slots);
    if k != 0 {
      SlotContents(h, slots, k);
    }
    var a, b := EventIn(|h|, i), EventIn(|h|, k);
    assert slots[k] == h[b] && slots[i] == h[a];
    if Total(h[a].time) < Total(h[b].time) {
      EventsTurn(|h|, k, i);
    }
  }

  /** Reading the slots in place, a slot is found not increasing if and only if the log has wrapped, it is the first
      one visited at or after the index where it wrapped, and its time is strictly before the one compared with. */
  lemma {:induction false} DumpOrder(h: seq<Entry>, slots: seq<Entry>, i: nat)
    requires Slots(h, slots) && Ordered(h) && i < MEMLOG_MAX
    ensures Flags(slots, MEMLOG_MAX)[i] <==>
            && |h| > MEMLOG_MAX && i >= |h| % MEMLOG_MAX && Visited(slots, i)
            && (forall m: nat :: |h| % MEMLOG_MAX <= m < i ==> !Visited(slots, m))
            && Total(slots[i].time) < Total(Previous(slots, i))
  {
    if Visited(slots, i) {
      BackwardSlot(h, slots, i);
      NegativeNormal(slots[i].time, Previous(slots, i));
    }
  }

  /** So two flagged slots are the same slot. */
  lemma {:induction false} OneFlagAtMost(h: seq<Entry>, slots: seq<Entry>, i: nat, k: nat)
    requires Slots(h, slots) && Ordered(h) && i < MEMLOG_MAX && k < MEMLOG_MAX
    requires Flags(slots, MEMLOG_MAX)[i] && Flags(slots, MEMLOG_MAX)[k]
    ensures i == k
  {
    DumpOrder(h, slots, i);
    DumpOrder(h, slots, k);
  }
}
