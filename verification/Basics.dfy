/** The bytes the drivers move. */
module Octets {
  newtype byte = x: int | 0 <= x < 256
}

/** Products, quotients and remainders. */
module Division {

  lemma MulPositive(a: nat, b: nat)
    requires a > 0 && b > 0
    ensures a * b > 0
  {
  }

  lemma MulMonotone(a: int, b: int, c: nat)
    requires a <= b
    ensures a * c <= b * c
  {
  }

  /** Quotient and remainder are the only way to split a number over a divisor. */
  lemma DivModUnique(a: int, b: nat, q: int, r: nat)
    requires b > 0 && r < b && a == q * b + r
    ensures a / b == q && a % b == r
  {
    var d := q - a / b;
    assert d * b == a % b - r by {
      assert a == a / b * b + a % b;
      assert (q - a / b) * b == q * b - a / b * b;
    }
    if d >= 1 {
      MulMonotone(1, d, b);
    } else if d <= -1 {
      MulMonotone(d, -1, b);
    }
  }

  /** A wrapping index `i` further on, as long as it passes the end at most by reaching it. */
  lemma WrapStep(k: nat, i: nat, n: nat)
    requires n > 0 && k % n + i <= n
    ensures (k + i) % n == if k % n + i == n then 0 else k % n + i
  {
    if k % n + i == n {
      DivModUnique(k + i, n, k / n + 1, 0);
    } else {
      DivModUnique(k + i, n, k / n, k % n + i);
    }
  }

  lemma WrapAdd(a: nat, b: nat, n: nat)
    requires n > 0
    ensures (a % n + b) % n == (a + b) % n
  {
    DivModUnique(a + b, n, a / n + (a % n + b) / n, (a % n + b) % n);
  }

  /** Within a window of `n` counts no two share an index. */
  lemma WrapDistinct(a: nat, b: nat, n: nat)
    requires n > 0 && a < b < a + n
    ensures a % n != b % n
  {
    if a % n == b % n {
      DivModUnique(b - a, n, b / n - a / n, 0);
      DivModUnique(b - a, n, 0, b - a);
    }
  }
}
