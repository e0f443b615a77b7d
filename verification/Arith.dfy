/** Integer division facts that the solver does not find by itself. */
module Arith {
  function Least(a: nat, b: nat): nat {
    if a < b then a else b
  }

  lemma MulAtLeast(k: int, s: nat)
    requires 1 <= k
    ensures k * s >= s
  {
    if k > 1 {
      MulAtLeast(k - 1, s);
      assert k * s == (k - 1) * s + s;
    }
  }

  lemma MulStep(a: nat, b: nat, s: nat)
    requires a < b
    ensures a * s + s <= b * s
  {
    MulAtLeast(b - a, s);
    assert b * s == a * s + (b - a) * s;
  }

  lemma MulMonotone(a: nat, b: nat, h: nat)
    requires a <= b
    ensures h * a <= h * b && a * h <= b * h
  {
    assert b * h == a * h + (b - a) * h;
  }

  /** Quotient and remainder are determined by their defining equation. */
  lemma DivModUnique(x: int, s: int, q: int, r: int)
    requires 0 <= r < s && x == q * s + r
    ensures x / s == q && x % s == r
  {
    var q', r' := x / s, x % s;
    assert x == q' * s + r';
    assert (q - q') * s == r' - r;
    assert (q' - q) * s == r - r';
    if q > q' {
      MulAtLeast(q - q', s);
    } else if q < q' {
      MulAtLeast(q' - q, s);
    }
  }
}
