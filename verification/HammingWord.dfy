/** The word operations as they run: loops that set and flip bits of a memory word in place.
    The word is an array of bits; its last bit plays PARITY_WORD_BIT. */
module HammingWord {
  import opened Bits
  import opened Hamming

  const OK: int := 1
  const DOUBLE_ERROR: int := -1

  /** XOR and count of the bits that check p covers; the source asserts that they agree. */
  method CheckXor(mem: array<bool>, M: nat, p: nat) returns (xor: bool)
    requires IsWord(mem[..], M)
    ensures xor == Parity(mem[..], p, WordBits(M))
  {
    xor := false;
    var parityCount := 0;
    for wordPos := 0 to WordBits(M)
      invariant xor == Parity(mem[..], p, wordPos)
      invariant xor <==> parityCount % 2 == 1
    {
      if Bit(wordPos + 1, p) {
        var bit := mem[wordPos];
        xor := xor != bit;
        parityCount := parityCount + if bit then 1 else 0;
      }
    }
    assert parityCount % 2 == if xor then 1 else 0;
  }

  /** Whole-word parity; a write ORs it into the parity bit. */
  method WordParity(mem: array<bool>, M: nat, write: bool) returns (xor: bool)
    requires IsWord(mem[..], M)
    modifies mem
    ensures xor == Whole(old(mem[..]), WordBits(M))
    ensures mem[..] == if write then AddWhole(old(mem[..]), M) else old(mem[..])
  {
    xor := false;
    for wordPos := 0 to WordBits(M)
      invariant mem[..] == old(mem[..]) && xor == Whole(mem[..], wordPos)
    {
      xor := xor != mem[wordPos];
    }
    if write && xor {
      mem[mem.Length - 1] := true;
    }
  }

  method GetParity(mem: array<bool>) returns (bit: bool)
    requires mem.Length > 0
    ensures bit == mem[mem.Length - 1]
  {
    bit := mem[mem.Length - 1];
  }

  /** The check bits: a write ORs each into its place and then the whole-word parity; a read accumulates
      the positions of the checks that fail. */
  method ApplyParity(mem: array<bool>, M: nat, write: bool) returns (totalC: nat)
    requires IsWord(mem[..], M)
    modifies mem
    ensures write ==> totalC == 0 && mem[..] == AddWhole(AddChecks(old(mem[..]), M, M), M)
    ensures !write ==> totalC == Syndrome(mem[..], M) && mem[..] == old(mem[..])
  {
    ghost var before := mem[..];
    totalC := 0;
    for p := 0 to M
      invariant write ==> totalC == 0 && mem[..] == AddChecks(before, M, p)
      invariant !write ==> totalC == Weigh(Checks(before, M)[..p]) && mem[..] == before
    {
      var xor := CheckXor(mem, M, p);
      var pPos := Pow2(p);
      if write {
        if xor {
          Pow2Mono(p, M);
          mem[pPos - 1] := true;
        }
      } else {
        assert Checks(before, M)[..p + 1][..p] == Checks(before, M)[..p];
        if xor {
          totalC := totalC + pPos;
        }
      }
    }
    assert Checks(before, M)[..M] == Checks(before, M);
    if write {
      var xor := WordParity(mem, M, true);
    }
  }

  /** Writing: OR the bits of `value` into the data positions, group by group. */
  method WriteData(value: seq<bool>, mem: array<bool>, M: nat)
    requires IsWord(mem[..], M)
    requires forall a :: 0 <= a < |Layout(M)| ==> Layout(M)[a] < mem.Length
    modifies mem
    ensures mem[..] == Place(old(mem[..]), value, Layout(M), |Layout(M)|)
  {
    ghost var before, pos := mem[..], Layout(M);
    var wordPos, valuePos := 1, 0;
    for p := 0 to M
      invariant wordPos == Pow2(p) && valuePos == |Layout(p)| <= |pos|
      invariant mem[..] == Place(before, value, pos, valuePos)
    {
      var currentP := Pow2(p);
      for i := 0 to currentP - 1
        invariant wordPos == currentP + i && valuePos == |Layout(p)| + i <= |pos|
        invariant mem[..] == Place(before, value, pos, valuePos)
      {
        LayoutAt(M, p, i);
        if valuePos < |value| && value[valuePos] {
          mem[wordPos] := true;
        }
        wordPos := wordPos + 1;
        valuePos := valuePos + 1;
      }
      wordPos := wordPos + 1;
      NextGroup(M, p);
    }
  }

  lemma {:induction false} NextGroup(M: nat, p: nat)
    requires p < M
    ensures |Layout(p + 1)| == |Layout(p)| + Pow2(p) - 1 <= |Layout(M)|
    decreases M
  {
    if p + 1 < M {
      NextGroup(M - 1, p);
    }
  }

  /** Reading: collect the bits of the data positions into a value of width V. */
  method ReadData(mem: array<bool>, M: nat, V: nat) returns (value: seq<bool>)
    requires IsWord(mem[..], M)
    ensures value == Gather(mem[..], M, V)
  {
    LayoutInWord(M, mem[..]);
    ghost var w, pos := mem[..], Layout(M);
    value := seq(V, _ => false);
    var wordPos, valuePos := 1, 0;
    for p := 0 to M
      invariant wordPos == Pow2(p) && valuePos == |Layout(p)| <= |pos| && |value| == V
      invariant forall v :: 0 <= v < V ==> value[v] == (v < valuePos && w[pos[v]])
    {
      var currentP := Pow2(p);
      for i := 0 to currentP - 1
        invariant wordPos == currentP + i && valuePos == |Layout(p)| + i <= |pos| && |value| == V
        invariant forall v :: 0 <= v < V ==> value[v] == (v < valuePos && w[pos[v]])
      {
        LayoutAt(M, p, i);
        if mem[wordPos] && valuePos < V {
          value := value[valuePos := true];
        }
        wordPos := wordPos + 1;
        valuePos := valuePos + 1;
      }
      wordPos := wordPos + 1;
      NextGroup(M, p);
    }
  }

  /** Write a value with its check bits and parity. */
  method WriteWHamming(value: seq<bool>, mem: array<bool>, M: nat) returns (c: nat)
    requires IsWord(mem[..], M)
    modifies mem
    ensures c == 0 && mem[..] == Written(old(mem[..]), M, value)
  {
    LayoutInWord(M, mem[..]);
    WriteData(value, mem, M);
    c := ApplyParity(mem, M, true);
  }

  /** Read a value, correcting memory on the way; `value` is kept when two bits are in error. */
  method ReadWHamming(value: seq<bool>, mem: array<bool>, M: nat) returns (rc: int, result: seq<bool>)
    requires IsWord(mem[..], M)
    modifies mem
    ensures ReadResult(rc, result, mem[..]) == Decoded(old(mem[..]), M, value)
  {
    SyndromeZero(mem[..], M);
    var c := ApplyParity(mem, M, false);
    var xor := WordParity(mem, M, false);
    var bit := GetParity(mem);
    if c == 0 {
      if xor != bit {
        xor := WordParity(mem, M, true);
      }
      result := ReadData(mem, M, |value|);
      rc := OK;
    } else {
      if xor == bit {
        return DOUBLE_ERROR, value;
      }
      mem[c - 1] := !mem[c - 1];
      result := ReadData(mem, M, |value|);
      rc := OK;
    }
  }
}
