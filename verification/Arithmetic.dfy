/** Small facts of non-linear arithmetic, each proved once with nothing else in scope. */
module Arithmetic {

  lemma MulLe(a: int, b: int, c: nat)
    requires a <= b
    ensures a * c <= b * c
  {
  }

  lemma SquareLe(x: nat, y: nat)
    requires x <= y
    ensures x * x <= y * y
  {
    MulLe(x, y, x);
    MulLe(x, y, y);
  }

  lemma Binomial(x: int, y: int)
    ensures (x + y) * (x + y) == x * x + 2 * (x * y) + y * y
  {
  }

  lemma Distribute(x: int, y: int, z: int)
    ensures x * (y + z) == x * y + x * z
  {
  }

  lemma Cancel(a: int, b: int, c: nat)
    requires c > 0 && a * c <= b * c
    ensures a <= b
  {
    if b + 1 <= a {
      MulLe(b + 1, a, c);
      Distribute(c, b, 1);
    }
  }

  lemma MeanAboveProduct(x: int, z: int)
    ensures 4 * (x * z) <= (x + z) * (x + z)
  {
    Binomial(x, z);
    Binomial(x, -z);
    assert x * -z == -(x * z);
    assert (-z) * (-z) == z * z;
    var d := x + -z;
    assert d * d >= 0;
  }

  /** Unsigned division, rounding down. */
  function Div(a: nat, b: nat): (q: nat)
    requires b > 0
    ensures b * q <= a < b * (q + 1)
  {
    a / b
  }

  /** A quotient is determined by the multiples around the dividend. */
  lemma MultipleUnique(a: int, b: nat, q: int, r: int)
    requires b * q <= a < b * (q + 1)
    requires b * r <= a < b * (r + 1)
    ensures q == r
  {
    if q < r {
      MulLe(q + 1, r, b);
    } else if r < q {
      MulLe(r + 1, q, b);
    }
  }

  lemma MultipleBelow(a: int, b: nat, q: int, bound: int)
    requires b * q <= a < b * bound
    ensures q < bound
  {
    if bound <= q {
      MulLe(bound, q, b);
    }
  }

  /** Remainders modulo `b`. */
  function Mod(a: nat, b: nat): (r: nat)
    requires b > 0
    ensures r < b
    ensures a < b ==> r == a
  {
    a % b
  }
}
