/** What the code corrects and detects, and when a write leaves a codeword behind. */
module Secded {
  import opened Bits
  import opened Hamming

  /** Indices that reading looks at: the code bits and the parity bit. */
  predicate Relevant(n: nat, M: nat, k: nat) {
    k < WordBits(M) || k == n - 1
  }

  ghost predicate Agree(v: seq<bool>, w: seq<bool>, M: nat)
    requires |v| == |w|
  {
    forall k: nat :: k < |v| && Relevant(|v|, M, k) ==> v[k] == w[k]
  }

  /** Every relevant bit that is set in v is set in w. */
  ghost predicate Within(v: seq<bool>, w: seq<bool>, M: nat)
    requires |v| == |w|
  {
    forall k: nat :: k < |v| && Relevant(|v|, M, k) && v[k] ==> w[k]
  }

  // ----- one read -----

  lemma {:induction false} GatherKept(w: seq<bool>, M: nat, value: seq<bool>)
    requires IsWord(w, M) && Carries(w, M, value)
    ensures Gather(w, M, |value|) == Kept(value, M)
  {
  }

  /** An undamaged codeword reads back its value. */
  lemma {:induction false} ReadClean(w: seq<bool>, M: nat, value: seq<bool>, prior: seq<bool>)
    requires IsWord(w, M) && Carries(w, M, value) && |prior| == |value|
    ensures Decoded(w, M, prior) == ReadResult(1, Kept(value, M), w)
  {
  }

  /** One flipped code bit is corrected, in the value and in memory. */
  lemma {:induction false} ReadOneFlip(w: seq<bool>, M: nat, value: seq<bool>, prior: seq<bool>, r: nat)
    requires IsWord(w, M) && Carries(w, M, value) && |prior| == |value| && r < WordBits(M)
    ensures Decoded(Flip(w, r), M, prior) == ReadResult(1, Kept(value, M), w)
  {
    var v := Flip(w, r);
    SyndromeIsPosition(w, M, r);
    WholeFlip(w, r, WordBits(M));
    assert Flip(v, r) == w;
    GatherKept(w, M, value);
  }

  /** A flipped parity bit never hurts the value; memory is repaired exactly when the true parity is odd,
      since the repair can only set the bit. */
  lemma {:induction false} ReadParityFlip(w: seq<bool>, M: nat, value: seq<bool>, prior: seq<bool>)
    requires IsWord(w, M) && Carries(w, M, value) && |prior| == |value|
    ensures var d := Decoded(Flip(w, |w| - 1), M, prior);
            && d.rc == 1 && d.value == Kept(value, M)
            && d.word == if Whole(w, WordBits(M)) then w else Flip(w, |w| - 1)
  {
    var v := Flip(w, |w| - 1);
    SyndromeIgnoresParityBit(w, M, |w| - 1);
    var d := Decoded(v, M, prior);
    LayoutInWord(M, w);
    LayoutBijection(M);
    forall a | 0 <= a < |Layout(M)| ensures Layout(M)[a] < WordBits(M) {
      assert Layout(M)[a] in Layout(M);
    }
    assert forall k :: 0 <= k < |w| - 1 ==> d.word[k] == w[k];
    GatherKept(w, M, value);
    assert d.value == Gather(w, M, |value|);
  }

  /** Any two distinct flips are reported, and nothing is changed. */
  lemma {:induction false} ReadTwoFlips(w: seq<bool>, M: nat, value: seq<bool>, prior: seq<bool>, r: nat, s: nat)
    requires IsWord(w, M) && Carries(w, M, value) && r < s < |w| && Relevant(|w|, M, r) && Relevant(|w|, M, s)
    ensures Decoded(Flip(Flip(w, r), s), M, prior) == ReadResult(-1, prior, Flip(Flip(w, r), s))
  {
    var n := WordBits(M);
    var u := Flip(w, r);
    WholeFlip(w, r, n);
    WholeFlip(u, s, n);
    if s < n {
      SyndromeOfTwo(w, M, r, s);
    } else {
      SyndromeIsPosition(w, M, r);
      SyndromeIgnoresParityBit(u, M, s);
    }
  }

  // ----- reading twice -----

  /** At most one bit of the word changes in a read, and only if it succeeds. */
  ghost predicate OneBitApart(v: seq<bool>, w: seq<bool>) {
    |v| == |w| && (v == w || exists r: nat :: r < |w| && v == Flip(w, r))
  }

  /** Whatever the memory holds, a read that does not give up leaves even checks behind by changing at most one bit;
      one that gives up changes nothing. */
  lemma {:induction false} ReadSettles(w: seq<bool>, M: nat, prior: seq<bool>)
    requires IsWord(w, M)
    ensures var d := Decoded(w, M, prior);
            && OneBitApart(d.word, w)
            && (d.rc == -1 || (d.rc == 1 && Syndrome(d.word, M) == 0 && d.value == Gather(d.word, M, |prior|)))
            && (d.rc == -1 ==> d.word == w && d.value == prior)
            && (d.rc == 1 && Syndrome(w, M) != 0 ==> d.word[|w| - 1] == Whole(d.word, WordBits(M)))
  {
    var c, d := Syndrome(w, M), Decoded(w, M, prior);
    SyndromeZero(w, M);
    if c == 0 {
      if d.word != w {
        assert d.word == Flip(w, |w| - 1);
        SyndromeFlip(w, M, |w| - 1);
      }
    } else if d.rc == 1 {
      SyndromeFlip(w, M, c - 1);
      XorZero(c, c);
      WholeFlip(w, c - 1, WordBits(M));
    }
  }

  /** So reading again reports, returns and leaves the same. */
  lemma {:induction false} ReadTwice(w: seq<bool>, M: nat, prior: seq<bool>)
    requires IsWord(w, M)
    ensures var d := Decoded(w, M, prior); Decoded(d.word, M, d.value) == d
  {
    ReadSettles(w, M, prior);
    var d := Decoded(w, M, prior);
    if d.rc == 1 && Syndrome(w, M) == 0 && d.word != w {
      assert d.word == Flip(w, |w| - 1);
      SyndromeIgnoresParityBit(w, M, |w| - 1);
    }
  }

  // ----- one write -----

  lemma {:induction false} PlaceBits(w: seq<bool>, value: seq<bool>, pos: seq<nat>, n: nat)
    requires n <= |pos| && forall a :: 0 <= a < |pos| ==> pos[a] < |w|
    requires forall a, b :: 0 <= a < b < |pos| ==> pos[a] < pos[b]
    ensures forall a :: 0 <= a < n ==>
              Place(w, value, pos, n)[pos[a]] == (w[pos[a]] || (a < |value| && value[a]))
    ensures forall k: nat :: k < |w| && k !in pos[..n] ==> Place(w, value, pos, n)[k] == w[k]
  {
    if n > 0 {
      PlaceBits(w, value, pos, n - 1);
      assert forall k :: k in pos[..n - 1] ==> k in pos[..n];
      assert pos[n - 1] in pos[..n];
      assert pos[n - 1] !in pos[..n - 1];
    }
  }

  /** Setting a clear check bit turns its own check over and no other. */
  lemma {:induction false} SetCheck(w: seq<bool>, M: nat, p: nat, q: nat)
    requires IsWord(w, M) && p < M && q < M
    ensures Pow2(p) <= WordBits(M)
    ensures !w[Pow2(p) - 1] ==>
              Even(w[Pow2(p) - 1 := true], M, q) == (Even(w, M, q) != (p == q))
  {
    Pow2Mono(p, M);
    if !w[Pow2(p) - 1] {
      ParityFlip(w, Pow2(p) - 1, q, WordBits(M));
      PowerDigits(p, q);
    }
  }

  lemma {:induction false} CheckBitsDiffer(M: nat, p: nat, q: nat)
    requires p < M && q < M && p != q
    ensures Pow2(p) != Pow2(q)
  {
    if p < q {
      Pow2Mono(p, q);
    } else {
      Pow2Mono(q, p);
    }
  }

  /** From clear check bits, adding the checks one by one makes them even one by one. */
  lemma {:induction false} ChecksBecomeEven(w: seq<bool>, M: nat, n: nat)
    requires IsWord(w, M) && n <= M
    requires forall p: nat :: p < M ==> Pow2(p) <= WordBits(M) && !w[Pow2(p) - 1]
    ensures var v := AddChecks(w, M, n);
            && (forall q: nat :: q < n ==> Even(v, M, q))
            && (forall q: nat :: n <= q < M ==> !v[Pow2(q) - 1])
  {
    if n > 0 {
      ChecksBecomeEven(w, M, n - 1);
      var p := n - 1;
      var v := AddChecks(w, M, p);
      forall q: nat | q < M ensures p != q ==> Pow2(p) != Pow2(q) {
        if p != q {
          CheckBitsDiffer(M, p, q);
        }
      }
      forall q: nat | q < n ensures Even(AddChecks(w, M, n), M, q) {
        SetCheck(v, M, p, q);
      }
    }
  }

  lemma {:induction false} ChecksOnlyAdd(w: seq<bool>, M: nat, n: nat)
    requires IsWord(w, M) && n <= M
    ensures var v := AddChecks(w, M, n);
            && (forall k: nat :: k < |w| && !IsCheck(M, k) ==> v[k] == w[k])
            && (forall k: nat :: k < |w| && w[k] ==> v[k])
            && v[|w| - 1] == w[|w| - 1]
  {
    if n > 0 {
      ChecksOnlyAdd(w, M, n - 1);
      Pow2Mono(n - 1, M);
      assert n - 1 < M && (Pow2(n - 1) - 1) + 1 == Pow2(n - 1);
    }
  }

  /** What a write does to each bit: data bits get the value ORed in, nothing is ever cleared. */
  lemma {:induction false} WrittenBits(w: seq<bool>, M: nat, value: seq<bool>)
    requires IsWord(w, M)
    ensures var x := Written(w, M, value);
            && (forall k: nat :: k < |w| && w[k] ==> x[k])
            && (forall a :: 0 <= a < |Layout(M)| ==>
                  (Layout(M)[a] < WordBits(M) &&
                   x[Layout(M)[a]] == (w[Layout(M)[a]] || (a < |value| && value[a]))))
            && Whole(x, WordBits(M)) == Whole(AddChecks(Placed(w, M, value), M, M), WordBits(M))
            && x[|w| - 1] == (w[|w| - 1] || Whole(x, WordBits(M)))
  {
    LayoutInWord(M, w);
    LayoutBijection(M);
    var pos := Layout(M);
    var v := Placed(w, M, value);
    PlaceBits(w, value, pos, |pos|);
    assert pos[..|pos|] == pos;
    ChecksOnlyAdd(v, M, M);
    var u := AddChecks(v, M, M);
    var x := Written(w, M, value);
    forall a | 0 <= a < |pos| ensures pos[a] < WordBits(M) && !IsCheck(M, pos[a]) && x[pos[a]] == u[pos[a]] {
      assert pos[a] in pos;
    }
    WholeSame(u, x, WordBits(M));
    forall k: nat | k < |w| && w[k] ensures x[k] {
      if k in pos {
        var a :| 0 <= a < |pos| && pos[a] == k;
      }
    }
  }

  /** The word after the data bits are placed. */
  function Placed(w: seq<bool>, M: nat, value: seq<bool>): (v: seq<bool>)
    requires IsWord(w, M)
    ensures |v| == |w|
  {
    LayoutInWord(M, w);
    Place(w, value, Layout(M), |Layout(M)|)
  }

  lemma {:induction false} WholeSame(u: seq<bool>, v: seq<bool>, n: nat)
    requires n <= |u| && n <= |v| && forall k :: 0 <= k < n ==> u[k] == v[k]
    ensures Whole(u, n) == Whole(v, n)
  {
    if n > 0 {
      WholeSame(u, v, n - 1);
    }
  }

  lemma {:induction false} ParitySame(u: seq<bool>, v: seq<bool>, p: nat, n: nat)
    requires n <= |u| && n <= |v| && forall k :: 0 <= k < n ==> u[k] == v[k]
    ensures Parity(u, p, n) == Parity(v, p, n)
  {
    if n > 0 {
      ParitySame(u, v, p, n - 1);
    }
  }

  lemma {:induction false} SyndromeSame(u: seq<bool>, v: seq<bool>, M: nat)
    requires IsWord(u, M) && IsWord(v, M) && forall k :: 0 <= k < WordBits(M) ==> u[k] == v[k]
    ensures Syndrome(u, M) == Syndrome(v, M)
  {
    forall p | 0 <= p < M ensures Checks(u, M)[p] == Checks(v, M)[p] {
      ParitySame(u, v, p, WordBits(M));
    }
    assert Checks(u, M) == Checks(v, M);
  }

  lemma {:induction false} PlacedClear(w: seq<bool>, M: nat, value: seq<bool>)
    requires IsWord(w, M) && Clear(w, M)
    ensures forall p: nat :: p < M ==> Pow2(p) <= WordBits(M) && !Placed(w, M, value)[Pow2(p) - 1]
  {
    LayoutInWord(M, w);
    LayoutBijection(M);
    PlaceBits(w, value, Layout(M), |Layout(M)|);
    assert Layout(M)[..|Layout(M)|] == Layout(M);
    forall p: nat | p < M ensures Pow2(p) <= WordBits(M) && !Placed(w, M, value)[Pow2(p) - 1] {
      Pow2Mono(p, M);
      assert IsCheck(M, Pow2(p) - 1);
      assert (Pow2(p) - 1) !in Layout(M);
    }
  }

  /** The generator without whole-word parity: the word it builds from zero has all checks even, and after
      flipping bit r the accumulated checks are the position r + 1. */
  lemma {:induction false} GeneratorTest(w: seq<bool>, M: nat, data: seq<bool>, r: nat)
    requires IsWord(w, M) && Clear(w, M) && r < WordBits(M)
    ensures var g := AddChecks(Placed(w, M, data), M, M); Syndrome(g, M) == 0 && Syndrome(Flip(g, r), M) == r + 1
  {
    var v := Placed(w, M, data);
    PlacedClear(w, M, data);
    ChecksBecomeEven(v, M, M);
    SyndromeZero(AddChecks(v, M, M), M);
    SyndromeIsPosition(AddChecks(v, M, M), M, r);
  }

  /** Writing into a clear word yields a codeword that carries the value. */
  lemma {:induction false} WriteClear(w: seq<bool>, M: nat, value: seq<bool>)
    requires IsWord(w, M) && Clear(w, M)
    ensures Carries(Written(w, M, value), M, value)
  {
    var v := Placed(w, M, value);
    WrittenBits(w, M, value);
    PlacedClear(w, M, value);
    ChecksBecomeEven(v, M, M);
    var u := AddChecks(v, M, M);
    SyndromeZero(u, M);
    SyndromeSame(u, Written(w, M, value), M);
    LayoutInWord(M, w);
    LayoutBijection(M);
    assert forall a :: 0 <= a < |Layout(M)| ==> Layout(M)[a] in Layout(M);
  }

  // ----- writing over stale contents -----

  lemma {:induction false} CheckIndex(w: seq<bool>, M: nat, p: nat) returns (k: nat)
    requires IsWord(w, M) && p < M
    ensures k + 1 == Pow2(p) && k < WordBits(M) < |w| && IsCheck(M, k)
  {
    Pow2Mono(p, M);
    k := Pow2(p) - 1;
  }

  /** What adding the first n checks does to check bit p. */
  lemma {:induction false} CheckOver(v: seq<bool>, M: nat, n: nat, p: nat, k: nat)
    requires IsWord(v, M) && n <= M && p < M && k + 1 == Pow2(p) && k < WordBits(M)
    ensures AddChecks(v, M, n)[k] == (v[k] || (p < n && Parity(v[k := false], p, WordBits(M))))
  {
    if n > 0 {
      CheckOver(v, M, n - 1, p, k);
      var u, c := AddChecks(v, M, n - 1), v[k := false];
      if p == n - 1 {
        ChecksOnlyAdd(v, M, n - 1);
        assert IsCheck(M, k);
        ParityOfChecks(u, c, M, p, WordBits(M));
      } else {
        CheckBitsDiffer(M, p, n - 1);
      }
    }
  }

  /** Over any contents, a write leaves a check bit set if and only if it was set before or the other bits it covers
      are odd; the bits that the code does not use stay. */
  lemma {:induction false} WrittenChecks(w: seq<bool>, M: nat, value: seq<bool>, p: nat, k: nat)
    requires IsWord(w, M) && p < M && k + 1 == Pow2(p)
    ensures k < WordBits(M)
    ensures var x := Written(w, M, value); x[k] == (w[k] || Parity(x[k := false], p, WordBits(M)))
  {
    var k' := CheckIndex(w, M, p);
    LayoutInWord(M, w);
    LayoutBijection(M);
    var v, pos := Placed(w, M, value), Layout(M);
    PlaceBits(w, value, pos, |pos|);
    assert pos[..|pos|] == pos && k !in pos;
    CheckOver(v, M, M, p, k);
    ChecksOnlyAdd(v, M, M);
    var x := Written(w, M, value);
    ParityOfChecks(x[k := false], v[k := false], M, p, WordBits(M));
  }

  lemma {:induction false} WrittenFrame(w: seq<bool>, M: nat, value: seq<bool>, k: nat)
    requires IsWord(w, M) && WordBits(M) <= k < |w| - 1
    ensures Written(w, M, value)[k] == w[k]
  {
    LayoutInWord(M, w);
    LayoutBijection(M);
    var pos := Layout(M);
    PlaceBits(w, value, pos, |pos|);
    assert pos[..|pos|] == pos && k !in pos;
    CheckBelow(M, k);
    ChecksOnlyAdd(Placed(w, M, value), M, M);
  }

  /** Two words that agree outside the check bits differ in check p exactly as their check bits p differ. */
  lemma {:induction false} ParityOfChecks(v: seq<bool>, c: seq<bool>, M: nat, p: nat, n: nat)
    requires IsWord(v, M) && |v| == |c| && p < M && n <= WordBits(M) && Pow2(p) <= WordBits(M)
    requires forall k: nat :: k < WordBits(M) && !IsCheck(M, k) ==> v[k] == c[k]
    ensures Parity(v, p, n) == (Parity(c, p, n) != (Pow2(p) <= n && v[Pow2(p) - 1] != c[Pow2(p) - 1]))
  {
    if n > 0 {
      ParityOfChecks(v, c, M, p, n - 1);
      assert n == Pow2(p) ==> IsCheck(M, n - 1);
      if IsCheck(M, n - 1) {
        var q: nat :| q < M && n - 1 + 1 == Pow2(q);
        PowerDigits(q, p);
        if q != p {
          CheckBitsDiffer(M, p, q);
        }
      }
    }
  }

  /** Words that carry the same value agree on every relevant bit. */
  lemma {:induction false} CarriesUnique(v: seq<bool>, c: seq<bool>, M: nat, value: seq<bool>)
    requires IsWord(v, M) && |v| == |c| && Carries(v, M, value) && Carries(c, M, value)
    ensures Agree(v, c, M)
  {
    LayoutBijection(M);
    forall k: nat | k < WordBits(M) && !IsCheck(M, k) ensures v[k] == c[k] {
      var a :| 0 <= a < |Layout(M)| && Layout(M)[a] == k;
    }
    SyndromeZero(v, M);
    SyndromeZero(c, M);
    forall k: nat | k < WordBits(M) ensures v[k] == c[k] {
      if IsCheck(M, k) {
        var p: nat :| p < M && k + 1 == Pow2(p);
        ParityOfChecks(v, c, M, p, WordBits(M));
        assert Even(v, M, p) && Even(c, M, p);
      }
    }
    WholeSame(v, c, WordBits(M));
  }

  /** Adding checks to a word whose stale bits lie within the codeword reproduces the codeword. */
  lemma {:induction false} ChecksOverStale(v: seq<bool>, c: seq<bool>, M: nat, n: nat)
    requires IsWord(v, M) && |v| == |c| && n <= M && Syndrome(c, M) == 0
    requires forall k: nat :: k < WordBits(M) && !IsCheck(M, k) ==> v[k] == c[k]
    requires forall k: nat :: k < WordBits(M) && v[k] ==> c[k]
    ensures var u := AddChecks(v, M, n);
            && (forall k: nat :: k < WordBits(M) && !IsCheck(M, k) ==> u[k] == c[k])
            && (forall k: nat :: k < WordBits(M) && u[k] ==> c[k])
            && (forall p: nat :: p < n ==> Pow2(p) <= WordBits(M) && u[Pow2(p) - 1] == c[Pow2(p) - 1])
  {
    if n > 0 {
      ChecksOverStale(v, c, M, n - 1);
      var u := AddChecks(v, M, n - 1);
      Pow2Mono(n - 1, M);
      ParityOfChecks(u, c, M, n - 1, WordBits(M));
      SyndromeZero(c, M);
      assert Even(c, M, n - 1);
      assert IsCheck(M, Pow2(n - 1) - 1);
    }
  }

  lemma {:induction false} WriteWithin(w: seq<bool>, c: seq<bool>, M: nat, value: seq<bool>)
    requires IsWord(w, M) && |c| == |w| && Carries(c, M, value) && Within(w, c, M)
    ensures forall k: nat :: k < WordBits(M) ==> Written(w, M, value)[k] == c[k]
  {
    var v := Placed(w, M, value);
    StaleWithin(w, c, M, value);
    ChecksOverStale(v, c, M, M);
    var u := AddChecks(v, M, M);
    forall k: nat | k < WordBits(M) ensures Written(w, M, value)[k] == c[k] {
      if IsCheck(M, k) {
        var p: nat :| p < M && k + 1 == Pow2(p);
      }
      assert u[k] == c[k];
    }
  }

  /** A word with the code bits of a codeword, and a parity bit that a write may have set, carries its value. */
  lemma {:induction false} SameCodeBits(x: seq<bool>, c: seq<bool>, M: nat, value: seq<bool>)
    requires IsWord(x, M) && |c| == |x| && Carries(c, M, value)
    requires forall k: nat :: k < WordBits(M) ==> x[k] == c[k]
    requires x[|x| - 1] == c[|x| - 1]
    ensures Carries(x, M, value)
  {
    SyndromeSame(x, c, M);
    WholeSame(x, c, WordBits(M));
    LayoutInWord(M, x);
    LayoutBijection(M);
    assert forall a :: 0 <= a < |Layout(M)| ==> Layout(M)[a] in Layout(M);
  }

  /** A write over any contents leaves a codeword carrying the value if and only if every relevant bit
      that was set belongs to that codeword. In particular a cleared word works, and so does rewriting
      the same value; a leftover bit outside the codeword is never cleared. */
  lemma {:induction false} WriteExact(w: seq<bool>, zero: seq<bool>, M: nat, value: seq<bool>)
    requires IsWord(w, M) && |zero| == |w| && Clear(zero, M)
    ensures Carries(Written(w, M, value), M, value) <==> Within(w, Written(zero, M, value), M)
  {
    var x, c := Written(w, M, value), Written(zero, M, value);
    WriteClear(zero, M, value);
    WrittenBits(w, M, value);
    if Carries(x, M, value) {
      CarriesUnique(x, c, M, value);
    }
    if Within(w, c, M) {
      WriteWithin(w, c, M, value);
      WholeSame(x, c, WordBits(M));
      assert Relevant(|w|, M, |w| - 1);
      SameCodeBits(x, c, M, value);
    }
  }

  /** Placing the data over stale bits within the codeword. */
  lemma {:induction false} StaleWithin(w: seq<bool>, c: seq<bool>, M: nat, value: seq<bool>)
    requires IsWord(w, M) && |w| == |c| && Within(w, c, M) && Carries(c, M, value)
    ensures var v := Placed(w, M, value);
            && (forall k: nat :: k < WordBits(M) && !IsCheck(M, k) ==> v[k] == c[k])
            && (forall k: nat :: k < WordBits(M) && v[k] ==> c[k])
  {
    var v, pos := Placed(w, M, value), Layout(M);
    LayoutInWord(M, w);
    LayoutBijection(M);
    PlaceBits(w, value, pos, |pos|);
    assert pos[..|pos|] == pos;
    forall k: nat | k < WordBits(M) && k in pos ensures v[k] == c[k] {
      var a :| 0 <= a < |pos| && pos[a] == k;
      assert Relevant(|w|, M, k);
    }
    forall k: nat | k < WordBits(M) && k !in pos && v[k] ensures c[k] {
      assert Relevant(|w|, M, k);
    }
  }

  // ----- write, damage, read -----

  lemma {:induction false} KeptAll(value: seq<bool>, M: nat)
    ensures Kept(value, M) == value <==> forall v: nat :: Pow2(M) - M - 1 <= v < |value| ==> !value[v]
  {
    LayoutBijection(M);
    if forall v: nat :: Pow2(M) - M - 1 <= v < |value| ==> !value[v] {
      assert Kept(value, M) == value;
    } else {
      var v: nat :| Pow2(M) - M - 1 <= v < |value| && value[v];
      assert !Kept(value, M)[v];
    }
  }

  /** Single error correction, double error detection: after writing into a clear word a value that the data
      bits can hold, no flip or any one flip of a code bit or of the parity bit still reads back the value,
      and any two distinct flips are reported. */
  lemma {:induction false} SecdedRoundTrip(w: seq<bool>, M: nat, value: seq<bool>, prior: seq<bool>)
    requires IsWord(w, M) && Clear(w, M) && |prior| == |value|
    requires forall v: nat :: Pow2(M) - M - 1 <= v < |value| ==> !value[v]
    ensures var x := Written(w, M, value);
            && (var d := Decoded(x, M, prior); d.rc == 1 && d.value == value)
            && (forall r: nat :: r < |w| && Relevant(|w|, M, r) ==>
                  var d := Decoded(Flip(x, r), M, prior); d.rc == 1 && d.value == value)
            && (forall r: nat, s: nat :: r < |w| && s < |w| && r != s && Relevant(|w|, M, r) && Relevant(|w|, M, s) ==>
                  var d := Decoded(Flip(Flip(x, r), s), M, prior); d.rc == -1 && d.value == prior)
  {
    var x := Written(w, M, value);
    WriteClear(w, M, value);
    KeptAll(value, M);
    ReadClean(x, M, value, prior);
    forall r: nat | r < |w| && Relevant(|w|, M, r)
      ensures var d := Decoded(Flip(x, r), M, prior); d.rc == 1 && d.value == value
    {
      if r < WordBits(M) {
        ReadOneFlip(x, M, value, prior, r);
      } else {
        ReadParityFlip(x, M, value, prior);
      }
    }
    forall r: nat, s: nat | r < |w| && s < |w| && r != s && Relevant(|w|, M, r) && Relevant(|w|, M, s)
      ensures var d := Decoded(Flip(Flip(x, r), s), M, prior); d.rc == -1 && d.value == prior
    {
      assert Flip(Flip(x, r), s) == Flip(Flip(x, s), r);
      ReadTwoFlips(x, M, value, prior, if r < s then r else s, if r < s then s else r);
    }
  }
}
