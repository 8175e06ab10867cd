/** Small functions of integers, and the few facts about products and remainders that the solver does not find on its
    own. */
module Arith {

  function Min(a: int, b: int): int { if a < b then a else b }

  function Max(a: int, b: int): int { if a < b then b else a }

  function Abs(n: int): nat { if n < 0 then -n else n }

  function Fabs(v: real): real { if v < 0.0 then -v else v }

  /** A real number without its fraction. */
  function Trunc(v: real): (n: int)
    ensures Fabs(v - n as real) < 1.0 && Fabs(n as real) <= Fabs(v) && (n > 0 ==> v > 0.0) && (n < 0 ==> v < 0.0)
  {
    if v < 0.0 then -((-v).Floor) else v.Floor
  }

  /** The largest even number that is no larger. */
  function Even(n: nat): (r: nat)
    ensures r % 2 == 0 && n - 1 <= r <= n
  {
    n - n % 2
  }

  lemma MulNonneg(a: int, b: int)
    requires a >= 0 && b >= 0
    ensures a * b >= 0
  {
  }

  lemma Times(a: nat, b: nat, d: nat)
    requires a <= b
    ensures a * d <= b * d
  {
  }

  lemma MulGrows(k: int, d: int)
    requires d >= 0
    ensures k >= 1 ==> k * d >= d
    ensures k <= -1 ==> k * d <= -d
  {
    if k >= 1 {
      MulNonneg(k - 1, d);
      assert (k - 1) * d == k * d - d;
    } else if k <= -1 {
      MulNonneg(-k - 1, d);
      assert (-k - 1) * d == -(k * d) - d;
    }
  }

  /** The only multiple of `d` strictly between `-d` and `d` is zero. */
  lemma OnlyZero(k: int, d: int, e: int)
    requires -d < e < d && e == k * d
    ensures k == 0
  {
    MulGrows(k, d);
  }

  lemma ModUnique(x: nat, d: nat, q: nat, r: nat)
    requires d > 0 && r < d && x == q * d + r
    ensures x % d == r
  {
    var q', r' := x / d, x % d;
    assert x == q' * d + r';
    assert (q - q') * d == q * d - q' * d;
    OnlyZero(q - q', d, r' - r);
  }

  lemma ModDistinct(a: nat, b: nat, n: nat)
    requires n > 0 && a < b < a + n
    ensures a % n != b % n
  {
    var qa, qb := a / n, b / n;
    assert a == qa * n + a % n && b == qb * n + b % n;
    assert (qb - qa) * n == qb * n - qa * n;
    MulGrows(qb - qa, n);
  }

  /** Division, as an inequality. */
  lemma Quotient(n: nat, d: nat, q: nat)
    requires d > 0
    ensures q == n / d <==> q * d <= n < (q + 1) * d
  {
    var p := n / d;
    assert p * d <= n < (p + 1) * d;
    if q < p {
      Times(q + 1, p, d);
    } else if q > p {
      Times(p + 1, q, d);
    }
  }

  lemma QuotientGrows(a: nat, b: nat, n: nat)
    requires a <= b && n > 0
    ensures a / n <= b / n
  {
    Quotient(a, n, a / n);
    Quotient(b, n, b / n);
    if a / n > b / n {
      Times(b / n + 1, a / n, n);
    }
  }
}
