/** Facts about products and quotients of integers. */
module IntegerFacts {
  lemma {:induction false} MulLe(a: int, b: int, d: int)
    requires a <= b && d >= 0
    ensures a * d <= b * d
  {
  }

  lemma {:induction false} Distribute(a: int, b: int, c: int)
    ensures a * (b - c) == a * b - a * c
    ensures (b - c) * a == b * a - c * a
  {
  }

  lemma {:induction false} Succ(a: int, d: int)
    ensures (a + 1) * d == a * d + d
    ensures (a - 1) * d == a * d - d
    ensures a * (d + 1) == a * d + a
    ensures a * (d - 1) == a * d - a
  {
  }

  lemma {:induction false} DivDef(x: int, d: int)
    requires d > 0
    ensures x == (x / d) * d + x % d && 0 <= x % d < d
  {
  }

  lemma {:induction false} DivBounds(x: int, d: int)
    requires d > 0
    ensures (x / d) * d <= x < (x / d) * d + d
  {
    assert x == d * (x / d) + x % d;
  }

  lemma {:induction false} QuotientIs(x: int, d: int, q: int)
    requires d > 0 && q * d <= x < q * d + d
    ensures x / d == q
  {
    DivBounds(x, d);
    var q' := x / d;
    Succ(q, d);
    Succ(q', d);
    if q < q' { MulLe(q + 1, q', d); }
    if q' < q { MulLe(q' + 1, q, d); }
  }

  lemma {:induction false} DivModIs(x: int, d: int, q: int, r: int)
    requires d > 0 && x == q * d + r && 0 <= r < d
    ensures x / d == q && x % d == r
  {
    var q' := x / d;
    assert x == d * q' + x % d;
    if q < q' { MulLe(q + 1, q', d); }
    if q' < q { MulLe(q' + 1, q, d); }
  }
}
