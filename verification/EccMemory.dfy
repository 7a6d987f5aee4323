/** The byte memory with error-correcting codes: a data byte and a code byte per cell, and its relation to the
    general code with four check bits. */
module EccMemory {
  import opened Bits
  import opened Hamming
  import opened Secded

  const NO_ERROR: int := 0
  const PW_ERROR: int := -1
  const DOUBLE_BIT_ERROR: int := -3

  /** One cell: the data byte and its code byte. */
  datatype Cell = Cell(data: bv8, code: bv8)

  // ----- the straight-line code -----

  /** Check bits P01 .. P04, parity PW and the encoded mark, as computed from the data byte. */
  function Codeword(d: bv8): bv8 {
    var c1: bv8 := 0x01 & ((d & 0x01) ^ ((d & 0x02) >> 1) ^ ((d & 0x08) >> 3) ^ ((d & 0x10) >> 4) ^ ((d & 0x40) >> 6));
    var c2: bv8 := c1 | (0x02 & (((d & 0x01) ^ ((d & 0x04) >> 2) ^ ((d & 0x08) >> 3) ^ ((d & 0x20) >> 5)
                                  ^ ((d & 0x40) >> 6)) << 1));
    var c3: bv8 := c2 | (0x04 & ((((d & 0x02) >> 1) ^ ((d & 0x04) >> 2) ^ ((d & 0x08) >> 3) ^ ((d & 0x80) >> 7)) << 2));
    var c4: bv8 := c3 | (0x08 & ((((d & 0x10) >> 4) ^ ((d & 0x20) >> 5) ^ ((d & 0x40) >> 6) ^ ((d & 0x80) >> 7)) << 3));
    var c5: bv8 := c4 | (0x10 & (WordXor(d, c4) << 4));
    c5 | 0x20
  }

  /** XOR of all data bits and of the four check bits of a code byte, in the lowest bit. */
  function WordXor(d: bv8, c: bv8): bv8 {
    ((d & 0x01) ^ ((d & 0x02) >> 1) ^ ((d & 0x04) >> 2) ^ ((d & 0x08) >> 3)
     ^ ((d & 0x10) >> 4) ^ ((d & 0x20) >> 5) ^ ((d & 0x40) >> 6) ^ ((d & 0x80) >> 7))
    ^ ((c & 0x01) ^ ((c & 0x02) >> 1) ^ ((c & 0x04) >> 2) ^ ((c & 0x08) >> 3))
  }

  /** The syndrome, the stored parity and the recomputed parity of a cell. */
  function SyndromeBits(c: Cell): bv8 {
    (Codeword(c.data) & 0x0F) ^ (c.code & 0x0F)
  }

  function StoredPw(c: Cell): bv8 {
    c.code & 0x10
  }

  function ActualPw(c: Cell): bv8 {
    0x10 & (WordXor(c.data, c.code) << 4)
  }

  function Fresh(d: bv8): Cell {
    Cell(d, Codeword(d))
  }

  /** Return code of a read. */
  function ReadCode(c: Cell): int {
    if SyndromeBits(c) == 0 then
      (if StoredPw(c) == ActualPw(c) then NO_ERROR else PW_ERROR)
    else
      (if StoredPw(c) == ActualPw(c) then DOUBLE_BIT_ERROR else SyndromeBits(c) as int)
  }

  /** A read changes the cell only to restore the parity bit, and only by setting it. */
  function AfterRead(c: Cell): Cell {
    if ReadCode(c) == PW_ERROR then c.(code := c.code | (ActualPw(c) & 0x10)) else c
  }

  /** Which bit of which byte a position of the encoded word pW p1 p2 d1 p3 d2 d3 d4 p4 d5 d6 d7 d8 denotes. */
  datatype Target = DataBit(i: nat) | CodeBit(i: nat) | OutOfRange

  function TargetOf(k: nat): (t: Target)
    ensures t.DataBit? ==> t.i < 8
    ensures t.CodeBit? ==> t.i < 5
    ensures t.OutOfRange? <==> k > 12
  {
    match k
    case 0 => CodeBit(4) case 1 => CodeBit(0) case 2 => CodeBit(1) case 4 => CodeBit(2) case 8 => CodeBit(3)
    case 3 => DataBit(0) case 5 => DataBit(1) case 6 => DataBit(2) case 7 => DataBit(3)
    case 9 => DataBit(4) case 10 => DataBit(5) case 11 => DataBit(6) case 12 => DataBit(7)
    case _ => OutOfRange
  }

  /** 1 << i in a byte. */
  function Mask(i: nat): bv8
    requires i < 8
  {
    match i
    case 0 => 0x01 case 1 => 0x02 case 2 => 0x04 case 3 => 0x08
    case 4 => 0x10 case 5 => 0x20 case 6 => 0x40 case 7 => 0x80
  }

  function FlipTarget(c: Cell, t: Target): Cell
    requires (t.DataBit? ==> t.i < 8) && (t.CodeBit? ==> t.i < 5)
  {
    match t
    case DataBit(i) => c.(data := c.data ^ Mask(i))
    case CodeBit(i) => c.(code := c.code ^ Mask(i))
    case OutOfRange => c
  }

  /** Flip one bit of the encoded word; a position out of range changes nothing. */
  function FlipBit(c: Cell, k: nat): Cell {
    FlipTarget(c, TargetOf(k))
  }

  // ----- the cell as a word of the general code -----

  predicate BitOf(x: bv8, i: nat)
    requires i < 8
  {
    x & Mask(i) != 0
  }

  function Byte(d: bv8): (v: seq<bool>)
    ensures |v| == 8
  {
    seq(8, i requires 0 <= i < 8 => BitOf(d, i))
  }

  function TargetBit(c: Cell, t: Target): bool
    requires (t.DataBit? ==> t.i < 8) && (t.CodeBit? ==> t.i < 5)
  {
    match t
    case DataBit(i) => BitOf(c.data, i)
    case CodeBit(i) => BitOf(c.code, i)
    case OutOfRange => false
  }

  /** The bit at position k of the encoded word. */
  function CellBit(c: Cell, k: nat): bool {
    TargetBit(c, TargetOf(k))
  }

  /** Positions 1 .. 12 of the encoded word are code bits 0 .. 11; the shortened code leaves 12 .. 14 clear;
      the last of the sixteen bits is the parity bit. */
  function PositionOf(i: nat): nat {
    if i < 12 then i + 1 else if i == 15 then 0 else 13
  }

  function Word(c: Cell): (w: seq<bool>)
    ensures |w| == 16
  {
    seq(16, i requires 0 <= i < 16 => CellBit(c, PositionOf(i)))
  }

  /** Index in the word of position k of the cell. */
  function WordIndex(k: nat): nat
    requires k <= 12
  {
    if k == 0 then 15 else k - 1
  }

  function X(a: bool, b: bool): bool {
    a != b
  }

  // The four checks and the parity over fifteen code bits, written out two bits at a time.

  lemma {:induction false} Check0(w: seq<bool>)
    requires |w| == 16
    ensures Parity(w, 0, 15) == X(X(X(X(X(X(X(w[0], w[2]), w[4]), w[6]), w[8]), w[10]), w[12]), w[14])
  {
    assert Parity(w, 0, 2) == X(Parity(w, 0, 0), w[0]);
    assert Parity(w, 0, 4) == X(Parity(w, 0, 2), w[2]);
    assert Parity(w, 0, 6) == X(Parity(w, 0, 4), w[4]);
    assert Parity(w, 0, 8) == X(Parity(w, 0, 6), w[6]);
    assert Parity(w, 0, 10) == X(Parity(w, 0, 8), w[8]);
    assert Parity(w, 0, 12) == X(Parity(w, 0, 10), w[10]);
    assert Parity(w, 0, 14) == X(Parity(w, 0, 12), w[12]);
  }

  lemma {:induction false} Check1(w: seq<bool>)
    requires |w| == 16
    ensures Parity(w, 1, 15) == X(X(X(X(X(X(X(w[1], w[2]), w[5]), w[6]), w[9]), w[10]), w[13]), w[14])
  {
    assert Parity(w, 1, 2) == X(Parity(w, 1, 0), w[1]);
    assert Parity(w, 1, 4) == X(Parity(w, 1, 2), w[2]);
    assert Parity(w, 1, 6) == X(Parity(w, 1, 4), w[5]);
    assert Parity(w, 1, 8) == X(Parity(w, 1, 6), w[6]);
    assert Parity(w, 1, 10) == X(Parity(w, 1, 8), w[9]);
    assert Parity(w, 1, 12) == X(Parity(w, 1, 10), w[10]);
    assert Parity(w, 1, 14) == X(Parity(w, 1, 12), w[13]);
  }

  lemma {:induction false} Check2(w: seq<bool>)
    requires |w| == 16
    ensures Parity(w, 2, 15) == X(X(X(X(X(X(X(w[3], w[4]), w[5]), w[6]), w[11]), w[12]), w[13]), w[14])
  {
    assert Parity(w, 2, 2) == Parity(w, 2, 0);
    assert Parity(w, 2, 4) == X(Parity(w, 2, 2), w[3]);
    assert Parity(w, 2, 6) == X(X(Parity(w, 2, 4), w[4]), w[5]);
    assert Parity(w, 2, 8) == X(Parity(w, 2, 6), w[6]);
    assert Parity(w, 2, 10) == Parity(w, 2, 8);
    assert Parity(w, 2, 12) == X(Parity(w, 2, 10), w[11]);
    assert Parity(w, 2, 14) == X(X(Parity(w, 2, 12), w[12]), w[13]);
  }

  lemma {:induction false} Check3(w: seq<bool>)
    requires |w| == 16
    ensures Parity(w, 3, 15) == X(X(X(X(X(X(X(w[7], w[8]), w[9]), w[10]), w[11]), w[12]), w[13]), w[14])
  {
    assert Parity(w, 3, 2) == Parity(w, 3, 0);
    assert Parity(w, 3, 4) == Parity(w, 3, 2);
    assert Parity(w, 3, 6) == Parity(w, 3, 4);
    assert Parity(w, 3, 8) == X(Parity(w, 3, 6), w[7]);
    assert Parity(w, 3, 10) == X(X(Parity(w, 3, 8), w[8]), w[9]);
    assert Parity(w, 3, 12) == X(X(Parity(w, 3, 10), w[10]), w[11]);
    assert Parity(w, 3, 14) == X(X(Parity(w, 3, 12), w[12]), w[13]);
  }

  function X4(a: bool, b: bool, c: bool, d: bool, e: bool): bool {
    X(X(X(X(a, b), c), d), e)
  }

  lemma {:induction false} FourMore(w: seq<bool>, n: nat)
    requires n + 4 <= |w|
    ensures Whole(w, n + 4) == X4(Whole(w, n), w[n], w[n + 1], w[n + 2], w[n + 3])
  {
    assert Whole(w, n + 2) == X(X(Whole(w, n), w[n]), w[n + 1]);
  }

  lemma {:induction false} CheckW(w: seq<bool>)
    requires |w| == 16
    ensures Whole(w, 15) == X4(X4(X4(Whole(w, 3), w[3], w[4], w[5], w[6]), w[7], w[8], w[9], w[10]),
                               w[11], w[12], w[13], w[14])
    ensures Whole(w, 3) == X(X(w[0], w[1]), w[2])
  {
    FourMore(w, 3);
    FourMore(w, 7);
    FourMore(w, 11);
    assert Whole(w, 1) == w[0];
  }

  // ----- the byte code refines the general code -----

  lemma {:induction false} Digit0(d: bv8, k: bv8)
    ensures (((Codeword(d) & 0x0F) ^ (k & 0x0F)) & 0x01 != 0) ==
            X(X(X(X(X(k & 0x01 != 0, d & 0x01 != 0), d & 0x02 != 0), d & 0x08 != 0), d & 0x10 != 0), d & 0x40 != 0)
  {
  }

  lemma {:induction false} Digit1(d: bv8, k: bv8)
    ensures (((Codeword(d) & 0x0F) ^ (k & 0x0F)) & 0x02 != 0) ==
            X(X(X(X(X(k & 0x02 != 0, d & 0x01 != 0), d & 0x04 != 0), d & 0x08 != 0), d & 0x20 != 0), d & 0x40 != 0)
  {
  }

  lemma {:induction false} Digit2(d: bv8, k: bv8)
    ensures (((Codeword(d) & 0x0F) ^ (k & 0x0F)) & 0x04 != 0) ==
            X(X(X(X(k & 0x04 != 0, d & 0x02 != 0), d & 0x04 != 0), d & 0x08 != 0), d & 0x80 != 0)
  {
  }

  lemma {:induction false} Digit3(d: bv8, k: bv8)
    ensures (((Codeword(d) & 0x0F) ^ (k & 0x0F)) & 0x08 != 0) ==
            X(X(X(X(k & 0x08 != 0, d & 0x10 != 0), d & 0x20 != 0), d & 0x40 != 0), d & 0x80 != 0)
  {
  }

  lemma {:induction false} DigitW(d: bv8, k: bv8)
    ensures (0x10 & (WordXor(d, k) << 4) != 0) ==
            X(X4(X4(X(X(k & 0x01 != 0, k & 0x02 != 0), d & 0x01 != 0),
                    k & 0x04 != 0, d & 0x02 != 0, d & 0x04 != 0, d & 0x08 != 0),
                 k & 0x08 != 0, d & 0x10 != 0, d & 0x20 != 0, d & 0x40 != 0), d & 0x80 != 0)
  {
  }

  // Each bit of the byte syndrome is the corresponding check of the general code.

  lemma {:induction false} Refine0(c: Cell)
    ensures (SyndromeBits(c) & 0x01 != 0) == Parity(Word(c), 0, 15)
  {
    Digit0(c.data, c.code);
    Check0(Word(c));
  }

  lemma {:induction false} Refine1(c: Cell)
    ensures (SyndromeBits(c) & 0x02 != 0) == Parity(Word(c), 1, 15)
  {
    Digit1(c.data, c.code);
    Check1(Word(c));
  }

  lemma {:induction false} Refine2(c: Cell)
    ensures (SyndromeBits(c) & 0x04 != 0) == Parity(Word(c), 2, 15)
  {
    Digit2(c.data, c.code);
    Check2(Word(c));
  }

  lemma {:induction false} Refine3(c: Cell)
    ensures (SyndromeBits(c) & 0x08 != 0) == Parity(Word(c), 3, 15)
  {
    Digit3(c.data, c.code);
    Check3(Word(c));
  }

  lemma {:induction false} Nibble(s: bv8)
    requires s & 0xF0 == 0
    ensures s as int == (if s & 0x01 != 0 then 1 else 0) + (if s & 0x02 != 0 then 2 else 0)
                        + (if s & 0x04 != 0 then 4 else 0) + (if s & 0x08 != 0 then 8 else 0)
  {
    assert s == 0 || s == 1 || s == 2 || s == 3 || s == 4 || s == 5 || s == 6 || s == 7
        || s == 8 || s == 9 || s == 10 || s == 11 || s == 12 || s == 13 || s == 14 || s == 15;
  }

  lemma {:induction false} SixteenBits()
    ensures Pow2(0) == 1 && Pow2(1) == 2 && Pow2(2) == 4 && Pow2(3) == 8 && WordBits(4) == 15
  {
  }

  lemma {:induction false} WeighFour(c: seq<bool>)
    requires |c| == 4
    ensures Weigh(c) == (if c[0] then 1 else 0) + (if c[1] then 2 else 0)
                        + (if c[2] then 4 else 0) + (if c[3] then 8 else 0)
  {
    SixteenBits();
    assert c[..3][..2] == c[..2];
    assert c[..2][..1] == c[..1];
    assert c[..1][..0] == [];
    assert Weigh(c[..1]) == if c[0] then 1 else 0;
    assert Weigh(c[..2]) == Weigh(c[..1]) + if c[1] then 2 else 0;
    assert Weigh(c[..3]) == Weigh(c[..2]) + if c[2] then 4 else 0;
  }

  /** The byte syndrome, read as a number, is the general syndrome of the cell's word. */
  lemma {:induction false} SyndromeRefines(c: Cell)
    ensures IsWord(Word(c), 4) && SyndromeBits(c) as int == Syndrome(Word(c), 4)
  {
    SixteenBits();
    Refine0(c);
    Refine1(c);
    Refine2(c);
    Refine3(c);
    Nibble(SyndromeBits(c));
    WeighFour(Checks(Word(c), 4));
  }

  /** The stored and the recomputed parity agree exactly when the general code's do. */
  lemma {:induction false} ParityRefines(c: Cell)
    ensures StoredPw(c) == ActualPw(c) <==> Word(c)[15] == Whole(Word(c), 15)
  {
    RefineW(c);
    ParityBits(c);
  }

  lemma {:induction false} CodeBits(c: Cell)
    ensures Word(c)[0] == (c.code & 0x01 != 0) && Word(c)[1] == (c.code & 0x02 != 0)
    ensures Word(c)[3] == (c.code & 0x04 != 0) && Word(c)[7] == (c.code & 0x08 != 0)
  {
  }

  lemma {:induction false} LowDataBits(c: Cell)
    ensures Word(c)[2] == (c.data & 0x01 != 0) && Word(c)[4] == (c.data & 0x02 != 0)
    ensures Word(c)[5] == (c.data & 0x04 != 0) && Word(c)[6] == (c.data & 0x08 != 0)
  {
  }

  lemma {:induction false} HighDataBits(c: Cell)
    ensures Word(c)[8] == (c.data & 0x10 != 0) && Word(c)[9] == (c.data & 0x20 != 0)
    ensures Word(c)[10] == (c.data & 0x40 != 0) && Word(c)[11] == (c.data & 0x80 != 0)
  {
  }

  lemma {:induction false} WholeOfBytes(w: seq<bool>, d: bv8, k: bv8)
    requires |w| == 16 && !w[12] && !w[13] && !w[14]
    requires w[0] == (k & 0x01 != 0) && w[1] == (k & 0x02 != 0) && w[3] == (k & 0x04 != 0) && w[7] == (k & 0x08 != 0)
    requires w[2] == (d & 0x01 != 0) && w[4] == (d & 0x02 != 0) && w[5] == (d & 0x04 != 0) && w[6] == (d & 0x08 != 0)
    requires w[8] == (d & 0x10 != 0) && w[9] == (d & 0x20 != 0) && w[10] == (d & 0x40 != 0) && w[11] == (d & 0x80 != 0)
    ensures (0x10 & (WordXor(d, k) << 4) != 0) == Whole(w, 15)
  {
    DigitW(d, k);
    CheckW(w);
  }

  lemma {:induction false} RefineW(c: Cell)
    ensures (ActualPw(c) != 0) == Whole(Word(c), 15)
  {
    CodeBits(c);
    LowDataBits(c);
    HighDataBits(c);
    WholeOfBytes(Word(c), c.data, c.code);
  }

  lemma {:induction false} ParityBits(c: Cell)
    ensures StoredPw(c) == ActualPw(c) <==> (c.code & 0x10 != 0) == (ActualPw(c) != 0)
  {
  }

  /** This memory's return code for a syndrome and for whether the parities agree. */
  function Conclusion(syndrome: nat, agree: bool): int {
    if syndrome == 0 then (if agree then NO_ERROR else PW_ERROR)
    else (if agree then DOUBLE_BIT_ERROR else syndrome)
  }

  lemma {:induction false} ReadConcludes(c: Cell, syndrome: nat, agree: bool)
    requires SyndromeBits(c) as int == syndrome && (StoredPw(c) == ActualPw(c)) == agree
    ensures ReadCode(c) == Conclusion(syndrome, agree)
  {
  }

  /** Reading a byte decides by the syndrome and the parity of the general code, whatever the cell holds. */
  lemma {:induction false} ReadRefines(c: Cell)
    ensures IsWord(Word(c), 4)
    ensures ReadCode(c) == Conclusion(Syndrome(Word(c), 4), Word(c)[15] == Whole(Word(c), 15))
  {
    SyndromeRefines(c);
    ParityRefines(c);
    ReadConcludes(c, Syndrome(Word(c), 4), Word(c)[15] == Whole(Word(c), 15));
  }

  lemma {:induction false} RestoredByte(code: bv8, x: bv8, actual: bv8)
    requires actual == 0x10 & x && code & 0x10 != actual
    ensures (code | (actual & 0x10)) & 0x10 != 0
    ensures (code | (actual & 0x10)) & 0xEF == code & 0xEF
  {
  }

  lemma {:induction false} SameCodeByte(a: bv8, b: bv8)
    requires a & 0xEF == b & 0xEF
    ensures a & 0x0F == b & 0x0F && a & 0xE0 == b & 0xE0
  {
  }

  /** A read changes at most the parity bit of the code byte: the data, the check bits and the mark stay. */
  lemma {:induction false} ReadFrame(c: Cell)
    ensures AfterRead(c).data == c.data && AfterRead(c).code & 0xEF == c.code & 0xEF
    ensures AfterRead(c) != c ==> ReadCode(c) == PW_ERROR && c.code & 0x10 == 0 && AfterRead(c).code & 0x10 != 0
  {
    if ReadCode(c) == PW_ERROR {
      RestoredByte(c.code, WordXor(c.data, c.code) << 4, ActualPw(c));
      if c.code & 0x10 != 0 {
        UnchangedByte(c.code, ActualPw(c));
      }
    }
  }

  lemma {:induction false} UnchangedByte(code: bv8, actual: bv8)
    requires code & 0x10 != 0
    ensures code | (actual & 0x10) == code
  {
  }

  /** After a read that reports PW_ERROR the parity bit is set, and no other bit of the word has changed. */
  lemma {:induction false} RestoredParity(c: Cell, k: nat)
    requires ReadCode(c) == PW_ERROR && k <= 12
    ensures CellBit(AfterRead(c), k) == (k == 0 || CellBit(c, k))
  {
    RestoredByte(c.code, WordXor(c.data, c.code) << 4, ActualPw(c));
    ReadFrame(c);
    SameCodeByte(AfterRead(c).code, c.code);
  }

  lemma {:induction false} RestoredWord(c: Cell)
    requires ReadCode(c) == PW_ERROR
    ensures Word(AfterRead(c)) == Word(c)[15 := true]
  {
    forall i: nat | i < 16 ensures Word(AfterRead(c))[i] == Word(c)[15 := true][i] {
      if PositionOf(i) <= 12 {
        RestoredParity(c, PositionOf(i));
      }
    }
  }

  /** The general decoder agrees with a read: it gives up exactly on DOUBLE_BIT_ERROR; for a reported position it
      flips that bit, which the byte memory leaves to the caller; otherwise it leaves the word as the read does. */
  lemma {:induction false} ReadDecodes(c: Cell, prior: seq<bool>)
    ensures IsWord(Word(c), 4)
    ensures Decoded(Word(c), 4, prior).rc == -1 <==> ReadCode(c) == DOUBLE_BIT_ERROR
    ensures var word := Decoded(Word(c), 4, prior).word;
            if ReadCode(c) > 0 then ReadCode(c) <= 15 && word == Flip(Word(c), ReadCode(c) - 1)
            else word == Word(AfterRead(c))
  {
    SixteenBits();
    ReadRefines(c);
    SyndromeZero(Word(c), 4);
    if ReadCode(c) == PW_ERROR {
      RestoredWord(c);
    }
  }

  lemma {:induction false} FreshSyndrome(d: bv8)
    ensures SyndromeBits(Fresh(d)) == 0 && StoredPw(Fresh(d)) == ActualPw(Fresh(d))
  {
  }

  lemma {:induction false} DataInPlace(c: Cell, a: nat)
    requires a < |Layout(4)|
    ensures Layout(4)[a] < 16 && CellBit(c, PositionOf(Layout(4)[a])) == (a < 8 && BitOf(c.data, a))
  {
  }

  /** A freshly written cell is a codeword of the general code that carries the byte. */
  lemma {:induction false} FreshCarries(d: bv8)
    ensures IsWord(Word(Fresh(d)), 4) && Carries(Word(Fresh(d)), 4, Byte(d))
  {
    SixteenBits();
    FreshSyndrome(d);
    SyndromeRefines(Fresh(d));
    ParityRefines(Fresh(d));
    forall a | 0 <= a < |Layout(4)|
      ensures Layout(4)[a] < 16 && Word(Fresh(d))[Layout(4)[a]] == (a < |Byte(d)| && Byte(d)[a])
    {
      DataInPlace(Fresh(d), a);
    }
  }

  /** Beyond check bits and parity a written code byte holds only the encoded mark, bit 0x20. */
  lemma {:induction false} EncodedMark(d: bv8)
    ensures Codeword(d) & 0xE0 == 0x20
  {
  }

  /** So the check bits and the parity of the byte memory are those the general write computes. */
  lemma {:induction false} WriteRefines(d: bv8, zero: seq<bool>)
    requires |zero| == 16 && IsWord(zero, 4) && Clear(zero, 4)
    ensures Agree(Word(Fresh(d)), Written(zero, 4, Byte(d)), 4)
  {
    FreshCarries(d);
    WriteClear(zero, 4, Byte(d));
    CarriesUnique(Word(Fresh(d)), Written(zero, 4, Byte(d)), 4, Byte(d));
  }

  lemma {:induction false} XorMask(x: bv8, m: bv8, n: bv8)
    requires m in {0x01, 0x02, 0x04, 0x08, 0x10, 0x20, 0x40, 0x80}
    requires n in {0x01, 0x02, 0x04, 0x08, 0x10, 0x20, 0x40, 0x80}
    ensures ((x ^ m) & n != 0) == ((x & n != 0) != (m == n))
  {
  }

  lemma {:induction false} FlipByte(x: bv8, i: nat, j: nat)
    requires i < 8 && j < 8
    ensures BitOf(x ^ Mask(i), j) == (BitOf(x, j) != (i == j))
  {
    XorMask(x, Mask(i), Mask(j));
  }

  lemma {:induction false} TargetsDiffer(k: nat, m: nat)
    requires k <= 12 && k != m
    ensures TargetOf(k) != TargetOf(m)
  {
  }

  lemma {:induction false} FlipOneTarget(c: Cell, t: Target, u: Target)
    requires (t.DataBit? && t.i < 8) || (t.CodeBit? && t.i < 5)
    requires (u.DataBit? ==> u.i < 8) && (u.CodeBit? ==> u.i < 5)
    ensures TargetBit(FlipTarget(c, t), u) == (TargetBit(c, u) != (t == u))
  {
    match (t, u) {
      case (DataBit(i), DataBit(j)) => FlipByte(c.data, i, j);
      case (CodeBit(i), CodeBit(j)) => FlipByte(c.code, i, j);
      case _ =>
    }
  }

  lemma {:induction false} FlipOneBit(c: Cell, k: nat, m: nat)
    requires k <= 12
    ensures CellBit(FlipBit(c, k), m) == (CellBit(c, m) != (k == m))
  {
    if k != m {
      TargetsDiffer(k, m);
    }
    FlipOneTarget(c, TargetOf(k), TargetOf(m));
  }

  lemma {:induction false} HighBits(x: bv8, m: bv8)
    requires m & 0xE0 == 0
    ensures (x ^ m) & 0xE0 == x & 0xE0
  {
  }

  lemma {:induction false} LowMask(i: nat)
    requires i < 5
    ensures Mask(i) & 0xE0 == 0
  {
  }

  /** flip_bit touches nothing else: of all sixteen bits of the cell exactly the one of that position changes ... */
  lemma {:induction false} FlipFrame(c: Cell, k: nat, j: nat)
    requires j < 8
    ensures BitOf(FlipBit(c, k).data, j) == (BitOf(c.data, j) != (TargetOf(k) == DataBit(j)))
    ensures BitOf(FlipBit(c, k).code, j) == (BitOf(c.code, j) != (TargetOf(k) == CodeBit(j)))
  {
    match TargetOf(k) {
      case DataBit(i) => FlipByte(c.data, i, j);
      case CodeBit(i) => FlipByte(c.code, i, j);
      case OutOfRange =>
    }
  }

  /** ... and the mark stays. */
  lemma {:induction false} FlipKeepsMark(c: Cell, k: nat)
    ensures FlipBit(c, k).code & 0xE0 == c.code & 0xE0
  {
    match TargetOf(k) {
      case CodeBit(i) =>
        LowMask(i);
        HighBits(c.code, Mask(i));
      case _ =>
    }
  }

  /** Flipping position k of a cell flips one bit of its word. */
  lemma {:induction false} FlipRefines(c: Cell, k: nat)
    requires k <= 12
    ensures Word(FlipBit(c, k)) == Flip(Word(c), WordIndex(k))
  {
    forall i: nat | i < 16 ensures Word(FlipBit(c, k))[i] == Flip(Word(c), WordIndex(k))[i] {
      FlipOneBit(c, k, PositionOf(i));
    }
  }
}
