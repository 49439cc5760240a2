/** Facts about powers of two, and about multiplying and dividing by something that
    is not a literal. */
module Arithmetic {

  function Pow2(n: nat): (p: nat)
    ensures p >= 1
  {
    if n == 0 then 1 else 2 * Pow2(n - 1)
  }

  lemma MulAtLeast(d: nat, m: int)
    requires m >= 1
    ensures d * m >= d
  {
    assert d * m == d * (m - 1) + d;
    NonNegative(d, m - 1);
  }

  lemma NonNegative(a: nat, b: nat)
    ensures a * b >= 0
  {
  }

  lemma Euclid(x: nat, d: nat)
    requires d > 0
    ensures x == d * (x / d) + x % d && 0 <= x % d < d && x / d >= 0
  {
  }

  lemma DivUnique(x: nat, d: nat, q: nat, r: nat)
    requires r < d && x == d * q + r
    ensures x / d == q && x % d == r
  {
    Euclid(x, d);
    var q', r' := x / d, x % d;
    Distributes(d, q', q);
    if q' > q {
      MulAtLeast(d, q' - q);
    } else if q' < q {
      Distributes(d, q, q');
      MulAtLeast(d, q - q');
    }
  }

  lemma Distributes(d: nat, a: int, b: int)
    ensures d * (a - b) == d * a - d * b
  {
  }

  // `v >> n` on a non-negative number.
  function ShiftRight(v: nat, n: nat): nat {
    if n == 0 then v else ShiftRight(v / 2, n - 1)
  }

  lemma {:induction false} ShiftOnce(v: nat, n: nat)
    ensures ShiftRight(v, n + 1) == ShiftRight(v, n) / 2
  {
    if n > 0 {
      ShiftOnce(v / 2, n - 1);
    }
  }
}
