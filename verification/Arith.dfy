/** Integer arithmetic shared by the scheduling and the coding models. */
module Arith {

  /** The source's ceil((double)a / (double)b) on unsigned operands: how many steps of size b reach a. */
  function CeilDiv(a: nat, b: int): nat
    requires b >= 1
  {
    if a == 0 then 0 else if a <= b then 1 else CeilDiv(a - b, b) + 1
  }

  /** It is the integer ceiling of the quotient. */
  lemma {:induction false} CeilDivIsCeiling(a: nat, b: int)
    requires b >= 1
    ensures (CeilDiv(a, b) - 1) * b < a <= CeilDiv(a, b) * b
    ensures CeilDiv(a, b) == (a + b - 1) / b
  {
    var c := CeilDiv(a, b);
    if a > b {
      CeilDivIsCeiling(a - b, b);
      assert (c - 1) * b == (c - 2) * b + b && c * b == (c - 1) * b + b;
    }
    DivModUnique(a + b - 1, b, c, a + b - 1 - c * b) by { assert (c - 1) * b == c * b - b; }
  }

  lemma {:induction false} MulLe(a: int, b: int, k: int)
    requires a <= b && 0 <= k
    ensures a * k <= b * k
    ensures k * a <= k * b
  {
  }

  lemma {:induction false} CancelLe(a: int, b: int, k: int)
    requires k >= 1 && a * k <= b * k
    ensures a <= b
  {
    if a > b {
      MulLe(b + 1, a, k);
    }
  }

  /** The ceiling is the least multiplier that reaches `a`. */
  lemma {:induction false} CeilDivLeast(a: nat, b: int, q: int)
    requires b >= 1 && a <= q * b
    ensures CeilDiv(a, b) <= q
  {
    CeilDivIsCeiling(a, b);
    if CeilDiv(a, b) > q {
      MulLe(q, CeilDiv(a, b) - 1, b);
    }
  }

  lemma {:induction false} CeilDivMono(a: nat, a': nat, b: int)
    requires b >= 1 && a <= a'
    ensures CeilDiv(a, b) <= CeilDiv(a', b)
  {
    if a > b {
      CeilDivMono(a - b, a' - b, b);
    }
  }

  /** Quotient and remainder are unique. */
  lemma {:induction false} DivModUnique(a: int, b: int, q: int, r: int)
    requires b >= 1 && 0 <= r < b && a == q * b + r
    ensures a / b == q && a % b == r
  {
    var q', r' := a / b, a % b;
    assert a == q' * b + r';
    if q' > q {
      MulLe(q + 1, q', b);
    } else if q' < q {
      MulLe(q' + 1, q, b);
    }
  }

  lemma {:induction false} MultiplesApart(a: int, b: int, k: int)
    requires k >= 1 && a % k == 0 && b % k == 0 && a < b
    ensures a + k <= b
    ensures (a + k) % k == 0 && (b - k) % k == 0
  {
    var p, q := a / k, b / k;
    assert a == p * k && b == q * k;
    if q <= p {
      MulLe(q, p, k);
    }
    MulLe(p + 1, q, k);
    DivModUnique(a + k, k, p + 1, 0);
    DivModUnique(b - k, k, q - 1, 0);
  }
}
