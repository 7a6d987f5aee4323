/** Binary digits of positions. */
module Bits {

  function Pow2(n: nat): (r: nat)
    ensures r >= 1
  {
    if n == 0 then 1 else 2 * Pow2(n - 1)
  }

  /** The test n & (1 << p). */
  predicate Bit(n: nat, p: nat) {
    if p == 0 then n % 2 == 1 else Bit(n / 2, p - 1)
  }

  /** The sum of 2^p over the digits that are set, accumulated from the lowest. */
  function Weigh(c: seq<bool>): nat {
    if c == [] then 0 else Weigh(c[..|c| - 1]) + (if c[|c| - 1] then Pow2(|c| - 1) else 0)
  }

  function Digits(n: nat, m: nat): (c: seq<bool>)
    ensures |c| == m
  {
    seq(m, p requires 0 <= p < m => Bit(n, p))
  }

  lemma {:induction false} WeighFront(c: seq<bool>)
    requires c != []
    ensures Weigh(c) == (if c[0] then 1 else 0) + 2 * Weigh(c[1..])
  {
    if |c| > 1 {
      WeighFront(c[..|c| - 1]);
      assert c[..|c| - 1][1..] == c[1..][..|c| - 2];
    }
  }

  /** The digits of a number below 2^m weigh that number. */
  lemma {:induction false} WeighDigits(n: nat, m: nat)
    requires n < Pow2(m)
    ensures Weigh(Digits(n, m)) == n
  {
    if m > 0 {
      WeighDigits(n / 2, m - 1);
      WeighFront(Digits(n, m));
      assert Digits(n, m)[1..] == Digits(n / 2, m - 1);
    }
  }

  lemma {:induction false} WeighZero(c: seq<bool>)
    ensures Weigh(c) == 0 <==> forall p :: 0 <= p < |c| ==> !c[p]
    ensures Weigh(c) < Pow2(|c|)
  {
    if c != [] {
      var d := c[..|c| - 1];
      WeighZero(d);
      assert forall p :: 0 <= p < |d| ==> d[p] == c[p];
    }
  }

  /** A power of two has a single digit. */
  lemma {:induction false} PowerDigits(p: nat, q: nat)
    ensures Bit(Pow2(p), q) <==> p == q
  {
    if p > 0 && q > 0 {
      PowerDigits(p - 1, q - 1);
    } else if q > 0 {
      ZeroDigits(q - 1);
    }
  }

  lemma {:induction false} ZeroDigits(q: nat)
    ensures !Bit(0, q)
  {
    if q > 0 {
      ZeroDigits(q - 1);
    }
  }

  lemma {:induction false} Pow2Mono(a: nat, b: nat)
    requires a <= b
    ensures Pow2(a) <= Pow2(b)
    ensures a < b ==> 2 * Pow2(a) <= Pow2(b)
    decreases b
  {
    if a < b {
      Pow2Mono(a, b - 1);
    }
  }

  // ----- exclusive or -----

  /** a ^ b */
  function Xor(a: nat, b: nat): nat
    decreases a + b
  {
    if a == 0 && b == 0 then 0 else 2 * Xor(a / 2, b / 2) + (if a % 2 != b % 2 then 1 else 0)
  }

  lemma {:induction false} XorBit(a: nat, b: nat, p: nat)
    ensures Bit(Xor(a, b), p) == (Bit(a, p) != Bit(b, p))
  {
    if a == 0 && b == 0 {
      ZeroDigits(p);
    } else if p > 0 {
      XorBit(a / 2, b / 2, p - 1);
      assert Xor(a, b) / 2 == Xor(a / 2, b / 2);
    }
  }

  lemma {:induction false} XorBelow(a: nat, b: nat, m: nat)
    requires a < Pow2(m) && b < Pow2(m)
    ensures Xor(a, b) < Pow2(m)
  {
    if m > 0 {
      XorBelow(a / 2, b / 2, m - 1);
    }
  }

  lemma {:induction false} XorZero(a: nat, b: nat)
    ensures Xor(a, b) == 0 <==> a == b
    decreases a + b
  {
    if a != 0 || b != 0 {
      XorZero(a / 2, b / 2);
    }
  }

  lemma {:induction false} XorIdentity(a: nat)
    ensures Xor(a, 0) == a && Xor(0, a) == a
  {
    if a > 0 {
      XorIdentity(a / 2);
    }
  }

  lemma {:induction false} XorSwap(a: nat, b: nat, c: nat)
    ensures Xor(Xor(a, b), c) == Xor(Xor(a, c), b)
    decreases a + b + c
  {
    if a + b + c > 0 {
      XorSwap(a / 2, b / 2, c / 2);
      XorHalves(a, b);
      XorHalves(a, c);
      XorHalves(Xor(a, b), c);
      XorHalves(Xor(a, c), b);
    }
  }

  lemma {:induction false} XorAssoc(a: nat, b: nat, c: nat)
    ensures Xor(Xor(a, b), c) == Xor(a, Xor(b, c))
    decreases a + b + c
  {
    if a + b + c > 0 {
      XorAssoc(a / 2, b / 2, c / 2);
      XorHalves(a, b);
      XorHalves(b, c);
      XorHalves(Xor(a, b), c);
      XorHalves(a, Xor(b, c));
    }
  }

  lemma {:induction false} XorHalves(a: nat, b: nat)
    ensures Xor(a, b) / 2 == Xor(a / 2, b / 2) && Xor(a, b) % 2 == if a % 2 != b % 2 then 1 else 0
  {
  }

  lemma {:induction false} XorCancel(a: nat, b: nat)
    ensures Xor(Xor(a, b), b) == a
    decreases a + b
  {
    if a + b > 0 {
      XorCancel(a / 2, b / 2);
      XorHalves(a, b);
      XorHalves(Xor(a, b), b);
    }
  }
}
