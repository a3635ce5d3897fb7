/** Facts about products, quotients and remainders that the components index with. */
module Arith {

  lemma MulNonNegative(a: int, b: int)
    requires 0 <= a && 0 <= b
    ensures 0 <= a * b
  {
  }

  lemma MulStep(a: int, b: int, d: int)
    requires a < b && d >= 0
    ensures a * d + d <= b * d
  {
    MulNonNegative(b - a - 1, d);
    assert b * d == (a + 1 + (b - a - 1)) * d;
  }

  lemma MulMonotone(a: int, b: int, d: int)
    requires a <= b && d >= 0
    ensures a * d <= b * d
  {
    if a < b {
      MulStep(a, b, d);
    }
  }

  lemma DivDefinition(n: int, d: int)
    requires d > 0
    ensures n == (n / d) * d + n % d && 0 <= n % d < d
  {
  }

  lemma DivUnique(n: int, d: int, q: int, r: int)
    requires d > 0 && 0 <= r < d && n == q * d + r
    ensures n / d == q && n % d == r
  {
    var q' := n / d;
    DivDefinition(n, d);
    if q' > q {
      MulStep(q, q', d);
    } else if q' < q {
      MulStep(q', q, d);
    }
  }

  lemma ModAdd(a: int, n: int, d: int)
    requires d > 0
    ensures (a + n * d) % d == a % d && (a + n * d) / d == a / d + n
  {
    DivDefinition(a, d);
    assert a + n * d == (a / d + n) * d + a % d;
    DivUnique(a + n * d, d, a / d + n, a % d);
  }

  lemma DivMonotone(a: int, b: int, d: int)
    requires a <= b && d > 0
    ensures a / d <= b / d
  {
    DivDefinition(a, d);
    DivDefinition(b, d);
    if b / d < a / d {
      MulStep(b / d, a / d, d);
    }
  }
}
