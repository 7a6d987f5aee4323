/** The extended Hamming code over bit sequences, for any number M of check bits. Position k + 1 (counting from one)
    is index k; indices 0 .. 2^M - 2 are the code bits and the last index of the word is the whole-word parity bit. */
module Hamming {
  import opened Bits

  /** Number of code bits of a word. */
  function WordBits(M: nat): nat {
    Pow2(M) - 1
  }

  /** A memory word: room for the code bits and a separate parity bit at the end. */
  predicate IsWord(w: seq<bool>, M: nat) {
    |w| > WordBits(M)
  }

  // ----- parities -----

  /** XOR of the bits at positions 1 .. n whose digit p is set: what the loop for check bit p accumulates. */
  function Parity(w: seq<bool>, p: nat, n: nat): bool
    requires n <= |w|
    decreases n
  {
    if n == 0 then false else Parity(w, p, n - 1) != (Bit(n, p) && w[n - 1])
  }

  /** XOR of the bits at positions 1 .. n. */
  function Whole(w: seq<bool>, n: nat): bool
    requires n <= |w|
    decreases n
  {
    if n == 0 then false else Whole(w, n - 1) != w[n - 1]
  }

  function Checks(w: seq<bool>, M: nat): (c: seq<bool>)
    requires IsWord(w, M)
    ensures |c| == M
  {
    seq(M, p requires 0 <= p < M => Parity(w, p, WordBits(M)))
  }

  /** The accumulated total_c. */
  function Syndrome(w: seq<bool>, M: nat): nat
    requires IsWord(w, M)
  {
    Weigh(Checks(w, M))
  }

  function Flip(w: seq<bool>, r: nat): (v: seq<bool>)
    requires r < |w|
    ensures |v| == |w|
  {
    w[r := !w[r]]
  }

  lemma {:induction false} ParityFlip(w: seq<bool>, r: nat, p: nat, n: nat)
    requires n <= |w| && r < |w|
    ensures Parity(Flip(w, r), p, n) == (Parity(w, p, n) != (r < n && Bit(r + 1, p)))
  {
    if n > 0 {
      ParityFlip(w, r, p, n - 1);
    }
  }

  lemma {:induction false} WholeFlip(w: seq<bool>, r: nat, n: nat)
    requires n <= |w| && r < |w|
    ensures Whole(Flip(w, r), n) == (Whole(w, n) != (r < n))
  {
    if n > 0 {
      WholeFlip(w, r, n - 1);
    }
  }

  /** The set bits at positions 1 .. n. */
  function SetBits(w: seq<bool>, n: nat): set<nat>
    requires n <= |w|
  {
    set k: nat | k < n && w[k]
  }

  lemma {:induction false} SetBitsStep(w: seq<bool>, n: nat)
    requires 0 < n <= |w|
    ensures |SetBits(w, n)| == |SetBits(w, n - 1)| + (if w[n - 1] then 1 else 0)
  {
    var fewer := SetBits(w, n - 1);
    assert SetBits(w, n) == if w[n - 1] then fewer + {n - 1} else fewer;
  }

  /** The whole-word parity says whether their number is odd. */
  lemma {:induction false} WholeIsOdd(w: seq<bool>, n: nat)
    requires n <= |w|
    ensures Whole(w, n) <==> |SetBits(w, n)| % 2 == 1
  {
    if n > 0 {
      WholeIsOdd(w, n - 1);
      SetBitsStep(w, n);
    }
  }

  /** Check p, over all code bits, is even. */
  predicate Even(w: seq<bool>, M: nat, p: nat)
    requires IsWord(w, M)
  {
    !Parity(w, p, WordBits(M))
  }

  /** The syndrome is zero exactly when every check is even. */
  lemma {:induction false} SyndromeZero(w: seq<bool>, M: nat)
    requires IsWord(w, M)
    ensures Syndrome(w, M) == 0 <==> forall p :: 0 <= p < M ==> Even(w, M, p)
    ensures Syndrome(w, M) <= WordBits(M)
  {
    var c := Checks(w, M);
    WeighZero(c);
    assert forall p :: 0 <= p < M ==> c[p] == !Even(w, M, p);
  }

  /** XOR of those positions 1 .. n that hold a set bit. */
  function PositionXor(w: seq<bool>, n: nat): nat
    requires n <= |w|
    decreases n
  {
    if n == 0 then 0 else if w[n - 1] then Xor(PositionXor(w, n - 1), n) else PositionXor(w, n - 1)
  }

  lemma {:induction false} PositionXorDigits(w: seq<bool>, M: nat, p: nat, n: nat)
    requires n <= |w| && n < Pow2(M)
    ensures Bit(PositionXor(w, n), p) == Parity(w, p, n)
    ensures PositionXor(w, n) < Pow2(M)
  {
    if n == 0 {
      ZeroDigits(p);
    } else {
      PositionXorDigits(w, M, p, n - 1);
      XorBit(PositionXor(w, n - 1), n, p);
      XorBelow(PositionXor(w, n - 1), n, M);
    }
  }

  /** For every word the syndrome is the XOR of the positions of its set bits. */
  lemma {:induction false} SyndromeIsXor(w: seq<bool>, M: nat)
    requires IsWord(w, M)
    ensures Syndrome(w, M) == PositionXor(w, WordBits(M))
  {
    var x := PositionXor(w, WordBits(M));
    PositionXorDigits(w, M, 0, WordBits(M));
    forall p | 0 <= p < M ensures Checks(w, M)[p] == Bit(x, p) {
      PositionXorDigits(w, M, p, WordBits(M));
    }
    assert Checks(w, M) == Digits(x, M);
    WeighDigits(x, M);
  }

  lemma {:induction false} PositionXorFlip(w: seq<bool>, r: nat, n: nat)
    requires n <= |w| && r < |w|
    ensures PositionXor(Flip(w, r), n) == if r < n then Xor(PositionXor(w, n), r + 1) else PositionXor(w, n)
  {
    if n > 0 {
      PositionXorFlip(w, r, n - 1);
      XorCancel(PositionXor(w, n - 1), n);
      XorSwap(PositionXor(w, n - 1), n, r + 1);
    }
  }

  /** So a flip of a code bit XORs its position into the syndrome; the parity bit is not part of any check. */
  lemma {:induction false} SyndromeFlip(w: seq<bool>, M: nat, r: nat)
    requires IsWord(w, M) && r < |w|
    ensures Syndrome(Flip(w, r), M) == if r < WordBits(M) then Xor(Syndrome(w, M), r + 1) else Syndrome(w, M)
  {
    SyndromeIsXor(w, M);
    SyndromeIsXor(Flip(w, r), M);
    PositionXorFlip(w, r, WordBits(M));
  }

  /** The syndrome of a single error is its position. */
  lemma {:induction false} SyndromeIsPosition(w: seq<bool>, M: nat, r: nat)
    requires IsWord(w, M) && Syndrome(w, M) == 0 && r < WordBits(M)
    ensures Syndrome(Flip(w, r), M) == r + 1
  {
    SyndromeFlip(w, M, r);
    XorIdentity(r + 1);
  }

  /** Two errors in the code bits never cancel. */
  lemma {:induction false} SyndromeOfTwo(w: seq<bool>, M: nat, r: nat, s: nat)
    requires IsWord(w, M) && Syndrome(w, M) == 0 && r < WordBits(M) && s < WordBits(M) && r != s
    ensures Syndrome(Flip(Flip(w, r), s), M) == Xor(r + 1, s + 1) != 0
  {
    SyndromeIsPosition(w, M, r);
    SyndromeFlip(Flip(w, r), M, s);
    XorZero(r + 1, s + 1);
  }

  /** The parity bit is not part of any check. */
  lemma {:induction false} SyndromeIgnoresParityBit(w: seq<bool>, M: nat, r: nat)
    requires IsWord(w, M) && WordBits(M) <= r < |w|
    ensures Syndrome(Flip(w, r), M) == Syndrome(w, M)
    ensures Whole(Flip(w, r), WordBits(M)) == Whole(w, WordBits(M))
  {
    SyndromeFlip(w, M, r);
    WholeFlip(w, r, WordBits(M));
  }

  // ----- layout of the data bits -----

  /** Index of each data bit, group by group: group p fills the indices between check bits p and p + 1. */
  function Layout(M: nat): seq<nat> {
    if M == 0 then [] else
      Layout(M - 1) + Group(M - 1)
  }

  /** Index k holds a check bit: k + 1 is a power of two below 2^M. */
  ghost predicate IsCheck(M: nat, k: nat) {
    exists p: nat :: p < M && k + 1 == Pow2(p)
  }

  function Group(p: nat): (g: seq<nat>)
    ensures |g| == Pow2(p) - 1
  {
    seq(Pow2(p) - 1, i requires 0 <= i < Pow2(p) - 1 => Pow2(p) + i)
  }

  /** The layout visits every index that is not a check bit, once, in increasing order. */
  lemma {:induction false} LayoutBijection(M: nat)
    ensures |Layout(M)| == Pow2(M) - M - 1
    ensures forall a, b :: 0 <= a < b < |Layout(M)| ==> Layout(M)[a] < Layout(M)[b]
    ensures forall k: nat :: k in Layout(M) <==> k < WordBits(M) && !IsCheck(M, k)
  {
    if M > 0 {
      LayoutBijection(M - 1);
      var low, high := Layout(M - 1), Group(M - 1);
      forall a | 0 <= a < |low| ensures low[a] < Pow2(M - 1) {
        assert low[a] in low;
      }
      forall k: nat ensures k in Layout(M) <==> k < WordBits(M) && !IsCheck(M, k) {
        CheckStep(M, k);
        CheckBelow(M - 1, k);
        GroupHolds(M - 1, k);
      }
    }
  }

  lemma {:induction false} GroupHolds(p: nat, k: nat)
    ensures k in Group(p) <==> Pow2(p) <= k < 2 * Pow2(p) - 1
  {
    if Pow2(p) <= k < 2 * Pow2(p) - 1 {
      assert Group(p)[k - Pow2(p)] == k;
    }
  }

  lemma {:induction false} CheckStep(M: nat, k: nat)
    requires M > 0
    ensures IsCheck(M, k) <==> IsCheck(M - 1, k) || k == Pow2(M - 1) - 1
  {
  }

  lemma {:induction false} CheckBelow(M: nat, k: nat)
    ensures IsCheck(M, k) ==> k < WordBits(M)
  {
    if IsCheck(M, k) {
      var p: nat :| p < M && k + 1 == Pow2(p);
      Pow2Mono(p, M);
    }
  }

  /** Where the nested loops stand: data bit i of group p. */
  lemma {:induction false} LayoutAt(M: nat, p: nat, i: nat)
    requires p < M && i < Pow2(p) - 1
    ensures |Layout(p)| == Pow2(p) - p - 1
    ensures |Layout(p)| + i < |Layout(M)|
    ensures Layout(M)[|Layout(p)| + i] == Pow2(p) + i
    decreases M
  {
    LayoutBijection(p);
    if p < M - 1 {
      LayoutAt(M - 1, p, i);
    }
  }

  // ----- writing -----

  /** OR the first n data bits into their places; data positions beyond the value's width stay. */
  function Place(w: seq<bool>, value: seq<bool>, pos: seq<nat>, n: nat): (v: seq<bool>)
    requires n <= |pos| && forall a :: 0 <= a < |pos| ==> pos[a] < |w|
    ensures |v| == |w|
  {
    if n == 0 then w else
      var v := Place(w, value, pos, n - 1);
      if n - 1 < |value| && value[n - 1] then v[pos[n - 1] := true] else v
  }

  /** OR the first n check bits, one after the other, each over the word so far. */
  function AddChecks(w: seq<bool>, M: nat, n: nat): (v: seq<bool>)
    requires IsWord(w, M) && n <= M
    ensures |v| == |w|
  {
    if n == 0 then w else
      var v := AddChecks(w, M, n - 1);
      Pow2Mono(n - 1, M);
      if Parity(v, n - 1, WordBits(M)) then v[Pow2(n - 1) - 1 := true] else v
  }

  /** OR the whole-word parity into the last bit. */
  function AddWhole(w: seq<bool>, M: nat): (v: seq<bool>)
    requires IsWord(w, M)
    ensures |v| == |w|
  {
    if Whole(w, WordBits(M)) then w[|w| - 1 := true] else w
  }

  lemma {:induction false} LayoutInWord(M: nat, w: seq<bool>)
    requires IsWord(w, M)
    ensures forall a :: 0 <= a < |Layout(M)| ==> Layout(M)[a] < |w|
  {
    LayoutBijection(M);
    assert forall a :: 0 <= a < |Layout(M)| ==> Layout(M)[a] in Layout(M);
  }

  /** The whole write: data bits, then check bits, then parity. */
  function Written(w: seq<bool>, M: nat, value: seq<bool>): (v: seq<bool>)
    requires IsWord(w, M)
    ensures |v| == |w|
  {
    LayoutInWord(M, w);
    AddWhole(AddChecks(Place(w, value, Layout(M), |Layout(M)|), M, M), M)
  }

  // ----- reading -----

  /** The value of width V read from the data bits; data bits beyond the width are dropped. */
  function Gather(w: seq<bool>, M: nat, V: nat): (value: seq<bool>)
    requires IsWord(w, M)
    ensures |value| == V
  {
    LayoutInWord(M, w);
    seq(V, v requires 0 <= v < V => v < |Layout(M)| && w[Layout(M)[v]])
  }

  datatype ReadResult = ReadResult(rc: int, value: seq<bool>, word: seq<bool>)

  /** Decode, correcting what can be corrected; `value` is left alone on a double error. */
  function Decoded(w: seq<bool>, M: nat, value: seq<bool>): ReadResult
    requires IsWord(w, M)
  {
    var c := Syndrome(w, M);
    var whole := Whole(w, WordBits(M));
    SyndromeZero(w, M);
    if c == 0 then
      var v := if whole != w[|w| - 1] then AddWhole(w, M) else w;
      ReadResult(1, Gather(v, M, |value|), v)
    else if whole == w[|w| - 1] then
      ReadResult(-1, value, w)
    else
      var v := Flip(w, c - 1);
      ReadResult(1, Gather(v, M, |value|), v)
  }

  /** The word is a codeword that carries `value`: checks even, parity bit right, data bits in place. */
  ghost predicate Carries(w: seq<bool>, M: nat, value: seq<bool>)
    requires IsWord(w, M)
  {
    && Syndrome(w, M) == 0
    && w[|w| - 1] == Whole(w, WordBits(M))
    && forall v :: 0 <= v < |Layout(M)| ==>
         Layout(M)[v] < |w| && w[Layout(M)[v]] == (v < |value| && value[v])
  }

  /** A value of width V, as far as the data bits of the code hold it. */
  function Kept(value: seq<bool>, M: nat): (k: seq<bool>)
    ensures |k| == |value|
  {
    seq(|value|, v requires 0 <= v < |value| => v < |Layout(M)| && value[v])
  }

  /** The word with every bit that matters clear. */
  predicate Clear(w: seq<bool>, M: nat)
    requires IsWord(w, M)
  {
    (forall k :: 0 <= k < WordBits(M) ==> !w[k]) && !w[|w| - 1]
  }
}
