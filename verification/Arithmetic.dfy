/** Order facts about products and quotients that the solver does not find alone. */
module Arithmetic {
  lemma Scale(d: nat, a: int, b: int)
    requires a <= b
    ensures d * a <= d * b && a * d <= b * d
  {
    assert d * (b - a) >= 0;
  }

  lemma Unscale(d: nat, a: int, b: int)
    requires a * d < b * d
    ensures a < b
  {
    if b <= a {
      Scale(d, b, a);
    }
  }

  lemma Floor(a: nat, d: nat)
    requires d > 0
    ensures d * (a / d) <= a < d * (a / d) + d
  {
    assert a == d * (a / d) + a % d;
  }

  lemma FloorStep(a: nat, b: nat, d: nat)
    requires d > 0 && a + d <= b
    ensures a / d < b / d
  {
    Floor(a, d);
    Floor(b, d);
    assert d * (a / d + 1) == d * (a / d) + d;
    assert d * (b / d + 1) == d * (b / d) + d;
    Unscale(d, a / d + 1, b / d + 1);
  }

  lemma FloorBelow(a: nat, m: nat, d: nat)
    requires d > 0 && a < d * m
    ensures a / d < m
  {
    Floor(a, d);
    Unscale(d, a / d, m);
  }

  lemma FloorAtLeast(a: nat, m: nat, d: nat)
    requires d > 0 && d * m <= a
    ensures m <= a / d
  {
    Floor(a, d);
    assert d * (a / d + 1) == d * (a / d) + d;
    Unscale(d, m, a / d + 1);
  }

  lemma FloorGrows(a: nat, b: nat, d: nat)
    requires d > 0 && a <= b
    ensures a / d <= b / d
  {
    Floor(a, d);
    FloorAtLeast(b, a / d, d);
  }
}
