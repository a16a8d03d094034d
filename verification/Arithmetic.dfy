/** Products and quotients of variables, one small fact at a time. */
module Arithmetic {

  lemma MulAdd(a: int, b: int, c: int)
    ensures (a + b) * c == a * c + b * c
  {
  }

  lemma MulMonotone(a: int, b: int, c: int)
    requires a <= b && 0 <= c
    ensures a * c <= b * c
  {
    MulAdd(a, b - a, c);
    assert (b - a) * c >= 0;
  }

  /** y * w by repeated addition. */
  function Times(w: int, y: nat): int {
    if y == 0 then 0 else Times(w, y - 1) + w
  }

  lemma {:induction false} TimesIs(w: int, y: nat)
    ensures Times(w, y) == y * w
  {
    if y == 0 {
    } else {
      TimesIs(w, y - 1);
      MulAdd(y - 1, 1, w);
    }
  }

  lemma DivBounds(a: int, n: int)
    requires 0 < n
    ensures a / n * n <= a < (a / n + 1) * n
  {
    MulAdd(a / n, 1, n);
    assert a == a / n * n + a % n;
  }

  lemma DivUnique(a: int, n: int, q: int)
    requires 0 < n && q * n <= a < (q + 1) * n
    ensures a / n == q
  {
    DivBounds(a, n);
    if q < a / n {
      MulMonotone(q + 1, a / n, n);
    }
    if a / n < q {
      MulMonotone(a / n + 1, q, n);
    }
  }

  lemma DivMonotone(a: int, b: int, n: int)
    requires a <= b && 0 < n
    ensures a / n <= b / n
  {
    DivBounds(a, n);
    DivBounds(b, n);
    if b / n < a / n {
      MulMonotone(b / n + 1, a / n, n);
    }
  }

  lemma DivExact(q: int, n: int)
    requires 0 < n
    ensures q * n / n == q
  {
    MulAdd(q, 1, n);
    DivUnique(q * n, n, q);
  }

  lemma NextModulo32(c: int)
    requires 0 <= c < 32
    ensures (c + 1) % 32 == if c == 31 then 0 else c + 1
  {
  }

  /** A natural quotient lies between 0 and the dividend. */
  lemma DivAtMost(a: int, n: int)
    requires 0 <= a && 0 < n
    ensures 0 <= a / n <= a
  {
    DivMonotone(0, a, n);
    DivExact(0, n);
    DivBounds(a, n);
    if a / n > 0 {
      MulMonotone(1, n, a / n);
    }
  }

  /** The multiples of `n` around `a`. */
  lemma DivFrame(a: int, n: int)
    requires 0 < n
    ensures n * (a / n) <= a < n * (a / n + 1)
    ensures n * (a / n + 1) == n * (a / n) + n
  {
    DivBounds(a, n);
    MulAdd(a / n, 1, n);
  }

  /** Division that rounds to the nearest integer. */
  lemma RoundedDivision(a: int, n: int)
    requires 0 < n
    ensures var q := (a + n / 2) / n;
      2 * (q * n) - n <= 2 * a < 2 * (q * n) + n + 2
  {
    DivFrame(a + n / 2, n);
  }
}
