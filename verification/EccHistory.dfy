/** The byte memory as an object, and what its reads report after any history of writes, reads and bit flips. */
module EccHistory {
  import opened Bits
  import opened Hamming
  import opened EccMemory

  const MEM_SIZE: nat := 1024

  datatype Op = Write(offset: nat, b: bv8) | Read(offset: nat) | Damage(offset: nat, k: nat)

  /** The effect of one operation on the cells. */
  function Step(mem: seq<Cell>, op: Op): (r: seq<Cell>)
    requires op.offset < |mem|
    ensures |r| == |mem|
  {
    match op
    case Write(o, b) => mem[o := Fresh(b)]
    case Read(o) => mem[o := AfterRead(mem[o])]
    case Damage(o, k) => mem[o := FlipBit(mem[o], k)]
  }

  predicate InBounds(ops: seq<Op>, n: nat) {
    forall i :: 0 <= i < |ops| ==> ops[i].offset < n
  }

  function Run(mem: seq<Cell>, ops: seq<Op>): (r: seq<Cell>)
    requires InBounds(ops, |mem|)
    ensures |r| == |mem|
  {
    if ops == [] then mem else Step(Run(mem, ops[..|ops| - 1]), ops[|ops| - 1])
  }

  /** The memory object; addresses are offsets into its arrays. */
  class Memory {
    const dataMemory: array<bv8>
    const codeMemory: array<bv8>

    constructor ()
      ensures fresh(dataMemory) && fresh(codeMemory) && Valid()
    {
      dataMemory := new bv8[MEM_SIZE];
      codeMemory := new bv8[MEM_SIZE];
    }

    predicate Valid() {
      dataMemory != codeMemory && dataMemory.Length == MEM_SIZE && codeMemory.Length == MEM_SIZE
    }

    function Cells(): (mem: seq<Cell>)
      requires Valid()
      reads dataMemory, codeMemory
      ensures |mem| == MEM_SIZE
    {
      seq(MEM_SIZE, i requires 0 <= i < MEM_SIZE && Valid() reads dataMemory, codeMemory =>
        Cell(dataMemory[i], codeMemory[i]))
    }

    /** Clear the code bytes. */
    method EnableEccMemory()
      requires Valid()
      modifies codeMemory
      ensures forall i :: 0 <= i < MEM_SIZE ==> Cells()[i] == Cell(old(Cells())[i].data, 0)
    {
      for idx := 0 to MEM_SIZE
        invariant forall i :: 0 <= i < idx ==> codeMemory[i] == 0
      {
        codeMemory[idx] := 0;
      }
    }

    method WriteByte(offset: nat, byteToWrite: bv8) returns (rc: int)
      requires Valid() && offset < MEM_SIZE
      modifies dataMemory, codeMemory
      ensures rc == NO_ERROR && Cells() == Step(old(Cells()), Write(offset, byteToWrite))
    {
      dataMemory[offset] := byteToWrite;
      codeMemory[offset] := Codeword(dataMemory[offset]);
      rc := NO_ERROR;
    }

    method ReadByte(offset: nat) returns (rc: int)
      requires Valid() && offset < MEM_SIZE
      modifies codeMemory
      ensures rc == ReadCode(old(Cells())[offset]) && Cells() == Step(old(Cells()), Read(offset))
    {
      var pW2;
      rc, pW2 := Diagnose(dataMemory[offset], codeMemory[offset]);
      if rc == PW_ERROR {
        codeMemory[offset] := codeMemory[offset] | (pW2 & 0x10);
      }
    }

    /** The decision of a read and the recomputed parity. */
    static method Diagnose(data: bv8, code: bv8) returns (rc: int, pW2: bv8)
      ensures rc == ReadCode(Cell(data, code)) && pW2 == ActualPw(Cell(data, code))
    {
      var cell := Cell(data, code);
      var syndrome, pW := SyndromeBits(cell), StoredPw(cell);
      pW2 := ActualPw(cell);
      if syndrome == 0 && pW == pW2 {
        rc := NO_ERROR;
      } else if syndrome == 0 && pW != pW2 {
        rc := PW_ERROR;
      } else if syndrome != 0 && pW == pW2 {
        rc := DOUBLE_BIT_ERROR;
      } else {
        rc := syndrome as int;
      }
    }

    method FlipBitAt(offset: nat, bitToFlip: nat)
      requires Valid() && offset < MEM_SIZE
      modifies dataMemory, codeMemory
      ensures Cells() == Step(old(Cells()), Damage(offset, bitToFlip))
    {
      match TargetOf(bitToFlip) {
        case DataBit(i) => dataMemory[offset] := dataMemory[offset] ^ Mask(i);
        case CodeBit(i) => codeMemory[offset] := codeMemory[offset] ^ Mask(i);
        case OutOfRange =>
      }
    }
  }

  // ----- what a history leaves in a cell -----

  /** What is known of a cell: nothing before its first write, then the byte written last and
      the positions at which the cell now differs from a fresh one. */
  datatype Known = Unwritten | Holds(b: bv8, errs: set<nat>)

  function Toggle(errs: set<nat>, k: nat): set<nat> {
    if k in errs then errs - {k} else errs + {k}
  }

  /** XOR of the positions 1 .. n in error. */
  function XorOf(errs: set<nat>, n: nat): nat {
    if n == 0 then 0 else if n in errs then Xor(XorOf(errs, n - 1), n) else XorOf(errs, n - 1)
  }

  /** What a read reports, from the errors alone, however many there are. */
  function Report(errs: set<nat>): int {
    Conclusion(XorOf(errs, 12), |errs| % 2 == 0)
  }

  /** The errors after a read: reporting PW_ERROR it leaves the parity bit set, which is right or wrong. */
  function AfterReading(b: bv8, errs: set<nat>): set<nat> {
    if Report(errs) != PW_ERROR then errs else if Codeword(b) & 0x10 != 0 then errs - {0} else errs + {0}
  }

  function KnownAfter(ops: seq<Op>, o: nat): Known {
    if ops == [] then Unwritten else
      var prev := KnownAfter(ops[..|ops| - 1], o);
      var op := ops[|ops| - 1];
      if op.offset != o then prev else
        match op
        case Write(_, b) => Holds(b, {})
        case Damage(_, k) => if prev.Holds? && k <= 12 then Holds(prev.b, Toggle(prev.errs, k)) else prev
        case Read(_) => if prev.Holds? then Holds(prev.b, AfterReading(prev.b, prev.errs)) else prev
  }

  /** The cell differs from a fresh one holding `b` in exactly the positions `errs`, and still bears the mark. */
  ghost predicate Differs(c: Cell, b: bv8, errs: set<nat>) {
    && c.code & 0xE0 == 0x20
    && (forall k: nat :: k in errs ==> k <= 12)
    && forall k: nat :: k <= 12 ==> CellBit(c, k) == (CellBit(Fresh(b), k) != (k in errs))
  }

  lemma {:induction false} SameByte(x: bv8, y: bv8)
    requires BitOf(x, 0) == BitOf(y, 0) && BitOf(x, 1) == BitOf(y, 1) && BitOf(x, 2) == BitOf(y, 2)
    requires BitOf(x, 3) == BitOf(y, 3) && BitOf(x, 4) == BitOf(y, 4)
    ensures x & 0x1F == y & 0x1F
    ensures BitOf(x, 5) == BitOf(y, 5) && BitOf(x, 6) == BitOf(y, 6) && BitOf(x, 7) == BitOf(y, 7) ==> x == y
    ensures x & 0xE0 == y & 0xE0 ==> x == y
  {
  }

  lemma {:induction false} BitPlaces(c: Cell)
    ensures CellBit(c, 0) == BitOf(c.code, 4) && CellBit(c, 1) == BitOf(c.code, 0) && CellBit(c, 2) == BitOf(c.code, 1)
    ensures CellBit(c, 4) == BitOf(c.code, 2) && CellBit(c, 8) == BitOf(c.code, 3)
    ensures CellBit(c, 3) == BitOf(c.data, 0) && CellBit(c, 5) == BitOf(c.data, 1) && CellBit(c, 6) == BitOf(c.data, 2)
    ensures CellBit(c, 7) == BitOf(c.data, 3) && CellBit(c, 9) == BitOf(c.data, 4) && CellBit(c, 10) == BitOf(c.data, 5)
    ensures CellBit(c, 11) == BitOf(c.data, 6) && CellBit(c, 12) == BitOf(c.data, 7)
  {
  }

  lemma {:induction false} SamePosition(c: Cell, d: Cell, b: bv8, errs: set<nat>, k: nat)
    requires Differs(c, b, errs) && Differs(d, b, errs) && k <= 12
    ensures CellBit(c, k) == CellBit(d, k)
  {
  }

  lemma {:induction false} SameData(c: Cell, d: Cell, b: bv8, errs: set<nat>)
    requires Differs(c, b, errs) && Differs(d, b, errs)
    ensures c.data == d.data
  {
    BitPlaces(c);
    BitPlaces(d);
    SamePosition(c, d, b, errs, 3);
    SamePosition(c, d, b, errs, 5);
    SamePosition(c, d, b, errs, 6);
    SamePosition(c, d, b, errs, 7);
    SamePosition(c, d, b, errs, 9);
    SamePosition(c, d, b, errs, 10);
    SamePosition(c, d, b, errs, 11);
    SamePosition(c, d, b, errs, 12);
    SameByte(c.data, d.data);
  }

  /** Byte, errors and mark leave nothing open: they determine both bytes of the cell. */
  lemma {:induction false} DiffersDetermines(c: Cell, d: Cell, b: bv8, errs: set<nat>)
    requires Differs(c, b, errs) && Differs(d, b, errs)
    ensures c == d
  {
    SameData(c, d, b, errs);
    BitPlaces(c);
    BitPlaces(d);
    SamePosition(c, d, b, errs, 0);
    SamePosition(c, d, b, errs, 1);
    SamePosition(c, d, b, errs, 2);
    SamePosition(c, d, b, errs, 4);
    SamePosition(c, d, b, errs, 8);
    SameByte(c.code, d.code);
  }

  /** Parity of the number of positions 1 .. n in error. */
  predicate OddUpTo(errs: set<nat>, n: nat) {
    n > 0 && OddUpTo(errs, n - 1) != (n in errs)
  }

  /** Words that differ in the positions `errs`: the errors XOR into the syndrome and the parity. */
  lemma {:induction false} ErrorsSeen(u: seq<bool>, v: seq<bool>, errs: set<nat>, n: nat)
    requires n <= |u| && n <= |v| && forall k :: 0 <= k < n ==> u[k] == (v[k] != (k + 1 in errs))
    ensures PositionXor(u, n) == Xor(PositionXor(v, n), XorOf(errs, n))
    ensures Whole(u, n) == (Whole(v, n) != OddUpTo(errs, n))
  {
    if n > 0 {
      ErrorsSeen(u, v, errs, n - 1);
      ErrorStep(PositionXor(v, n - 1), XorOf(errs, n - 1), n);
    }
  }

  lemma {:induction false} ErrorStep(p: nat, x: nat, n: nat)
    ensures Xor(Xor(p, n), x) == Xor(Xor(p, x), n) == Xor(p, Xor(x, n))
    ensures Xor(Xor(p, n), Xor(x, n)) == Xor(p, x)
  {
    XorSwap(p, n, x);
    XorAssoc(p, x, n);
    XorAssoc(Xor(p, n), x, n);
    XorCancel(Xor(p, x), n);
  }

  lemma {:induction false} NoneAbove(errs: set<nat>, m: nat, n: nat)
    requires m <= n && forall k :: k in errs ==> k <= m
    ensures XorOf(errs, n) == XorOf(errs, m) && OddUpTo(errs, n) == OddUpTo(errs, m)
    decreases n
  {
    if m < n {
      NoneAbove(errs, m, n - 1);
    }
  }

  lemma {:induction false} OddWithout(errs: set<nat>, k: nat, n: nat)
    requires n < k
    ensures OddUpTo(errs - {k}, n) == OddUpTo(errs, n)
  {
    if n > 0 {
      OddWithout(errs, k, n - 1);
    }
  }

  /** Together with position 0 it is the parity of their number. */
  lemma {:induction false} OddIsSize(errs: set<nat>, n: nat)
    requires forall k :: k in errs ==> k <= n
    ensures |errs| % 2 == 1 <==> OddUpTo(errs, n) != (0 in errs)
  {
    if n == 0 {
      assert errs == if 0 in errs then {0} else {};
    } else if n in errs {
      OddIsSize(errs - {n}, n - 1);
      OddWithout(errs, n, n - 1);
    } else {
      OddIsSize(errs, n - 1);
    }
  }

  lemma {:induction false} DiffersWord(c: Cell, b: bv8, errs: set<nat>, k: nat)
    requires Differs(c, b, errs) && k < 15
    ensures Word(c)[k] == (Word(Fresh(b))[k] != (k + 1 in errs))
  {
    assert PositionOf(k) <= 12 ==> PositionOf(k) == k + 1;
  }

  /** A read reports the XOR of the positions in error, and parity errors by whether their number is even. */
  lemma {:induction false} ReadReports(c: Cell, b: bv8, errs: set<nat>)
    requires Differs(c, b, errs)
    ensures ReadCode(c) == Report(errs)
  {
    var u, v := Word(c), Word(Fresh(b));
    SixteenBits();
    FreshCarries(b);
    forall k | 0 <= k < 15 ensures u[k] == (v[k] != (k + 1 in errs)) {
      DiffersWord(c, b, errs, k);
    }
    ErrorsSeen(u, v, errs, 15);
    SyndromeIsXor(u, 4);
    SyndromeIsXor(v, 4);
    XorIdentity(XorOf(errs, 15));
    NoneAbove(errs, 12, 15);
    OddIsSize(errs, 12);
    assert u[15] == (v[15] != (0 in errs));
    ReadRefines(c);
  }

  // ----- at most two errors -----

  /** The one element of a singleton. */
  function Only(s: set<nat>): (k: nat)
    requires |s| == 1
    ensures s == {k}
  {
    var k :| k in s;
    assert |s - {k}| == 0;
    assert forall m :: m in s ==> m == k;
    k
  }

  lemma {:induction false} XorOfOne(k: nat, n: nat)
    ensures XorOf({k}, n) == if 1 <= k <= n then k else 0
  {
    if n > 0 {
      XorOfOne(k, n - 1);
      XorIdentity(k);
    }
  }

  lemma {:induction false} XorOfTwo(k: nat, l: nat, n: nat)
    requires k < l
    ensures XorOf({k, l}, n) == if l <= n then Xor(k, l) else if k <= n then k else 0
  {
    if n > 0 {
      XorOfTwo(k, l, n - 1);
    }
    XorIdentity(k);
    XorIdentity(l);
  }

  lemma {:induction false} PairOf(s: set<nat>) returns (k: nat, l: nat)
    requires |s| == 2
    ensures k < l && s == {k, l}
  {
    k :| k in s;
    var t := s - {k};
    l := Only(t);
    assert s == t + {k};
    if l < k {
      k, l := l, k;
    }
  }

  /** Up to two errors are told apart: none, the parity bit, the position, or two. */
  lemma {:induction false} ReportFew(errs: set<nat>)
    requires |errs| <= 2 && forall k :: k in errs ==> k <= 12
    ensures Report(errs) == if errs == {} then 0 else if |errs| == 2 then -3 else if errs == {0} then -1 else Only(errs)
  {
    if errs == {} {
      NoneAbove(errs, 0, 12);
    } else if |errs| == 2 {
      var k, l := PairOf(errs);
      XorOfTwo(k, l, 12);
      XorZero(k, l);
    } else {
      assert |errs| != 0;
      XorOfOne(Only(errs), 12);
    }
  }

  /** Three errors look like one or like none in the code bits, and can point at a bit that is right. */
  lemma {:induction false} ThreeMisread(errs: set<nat>)
    requires errs == {1, 2, 4} || errs == {1, 2, 3}
    ensures Report(errs) == if 3 in errs then -1 else 7
  {
    SmallXors();
    XorIdentity(1);
    assert XorOf(errs, 1) == 1;
    assert XorOf(errs, 2) == 3;
    assert XorOf(errs, 3) == if 3 in errs then 0 else 3;
    assert XorOf(errs, 4) == if 3 in errs then 0 else 7;
    NoneAbove(errs, 4, 12);
  }

  lemma {:induction false} SmallXors()
    ensures Xor(1, 2) == 3 && Xor(3, 3) == 0 && Xor(3, 4) == 7
  {
    XorZero(3, 3);
    assert Xor(0, 1) == Xor(1, 0) == 1;
    assert Xor(1, 2) == 2 * Xor(0, 1) + 1;
    assert Xor(1, 2) == 3 && Xor(3, 4) == 2 * Xor(1, 2) + 1;
  }

  // ----- histories -----

  /** A read changes the errors of a cell only in the parity bit, and only by setting it. */
  lemma {:induction false} ReadKeeps(c: Cell, b: bv8, errs: set<nat>)
    requires Differs(c, b, errs)
    ensures Differs(AfterRead(c), b, AfterReading(b, errs))
  {
    ReadReports(c, b, errs);
    ReadFrame(c);
    SameCodeByte(AfterRead(c).code, c.code);
    if ReadCode(c) == PW_ERROR {
      forall k: nat | k <= 12
        ensures CellBit(AfterRead(c), k) == (CellBit(Fresh(b), k) != (k in AfterReading(b, errs)))
      {
        RestoredParity(c, k);
        assert CellBit(Fresh(b), 0) == (Codeword(b) & 0x10 != 0);
      }
    }
  }

  /** After any history of writes, reads and flips on any cells, a cell that was written differs from a fresh one
      exactly in the recorded positions. */
  lemma {:induction false} HistoryInvariant(mem: seq<Cell>, ops: seq<Op>, o: nat)
    requires o < |mem| && InBounds(ops, |mem|)
    ensures var known := KnownAfter(ops, o);
            known.Holds? ==> Differs(Run(mem, ops)[o], known.b, known.errs)
  {
    if ops != [] {
      var prefix, op := ops[..|ops| - 1], ops[|ops| - 1];
      HistoryInvariant(mem, prefix, o);
      var known := KnownAfter(prefix, o);
      var c := Run(mem, prefix)[o];
      if op.offset == o {
        match op {
          case Write(_, b) => EncodedMark(b);
          case Read(_) =>
            if known.Holds? {
              ReadKeeps(c, known.b, known.errs);
            }
          case Damage(_, k) =>
            if known.Holds? {
              DamageKeeps(c, known.b, known.errs, k);
            }
        }
      }
    }
  }

  lemma {:induction false} DamageKeeps(c: Cell, b: bv8, errs: set<nat>, k: nat)
    requires Differs(c, b, errs)
    ensures Differs(FlipBit(c, k), b, if k <= 12 then Toggle(errs, k) else errs)
  {
    FlipKeepsMark(c, k);
    if k <= 12 {
      forall m: nat | m <= 12
        ensures CellBit(FlipBit(c, k), m) == (CellBit(Fresh(b), m) != (m in Toggle(errs, k)))
      {
        FlipOneBit(c, k, m);
      }
    }
  }

  /** So every read of a written cell reports the errors it has then. */
  lemma {:induction false} HistoryReads(mem: seq<Cell>, ops: seq<Op>, o: nat)
    requires o < |mem| && InBounds(ops, |mem|) && KnownAfter(ops, o).Holds?
    ensures ReadCode(Run(mem, ops)[o]) == Report(KnownAfter(ops, o).errs)
  {
    HistoryInvariant(mem, ops, o);
    var known := KnownAfter(ops, o);
    ReadReports(Run(mem, ops)[o], known.b, known.errs);
  }
}
