/** Facts about multiplication and division that the solver does not find on its own. */
module Arithmetic {

  lemma Recompose(x: nat, d: nat)
    requires d > 0
    ensures x == d * (x / d) + x % d
  {
  }

  lemma DivModUnique(x: nat, d: nat, q: nat, r: nat)
    requires d > 0 && x == d * q + r && r < d
    ensures x % d == r && x / d == q
  {
    Recompose(x, d);
    MultipleIsFar(d, q - x / d);
    assert d * (q - x / d) == d * q - d * (x / d);
  }

  lemma MultipleIsFar(d: nat, k: int)
    ensures k >= 1 ==> d * k >= d
    ensures k <= -1 ==> d * k <= -(d as int)
  {
  }

  lemma QuotientBound(n: nat, d: nat, x: nat)
    requires d > 0 && n * d <= x
    ensures n <= x / d
  {
    Recompose(x, d);
    MultipleIsFar(d, n - x / d);
    assert d * (n - x / d) == d * n - d * (x / d);
  }

  /** Ceiling division stays within max exactly when the product does. */
  lemma CeilBound(x: nat, d: nat, max: nat)
    requires d > 0
    ensures (x + d - 1) / d <= max <==> x <= max * d
  {
    var q := (x + d - 1) / d;
    Recompose(x + d - 1, d);
    MultipleIsFar(d, q - max);
    assert d * (q - max) == d * q - max * d;
    if x > max * d {
      QuotientBound(max + 1, d, x + d - 1);
    }
  }
}
