/** Integer division facts shared by the other modules. */
module DivMod {

  lemma MulGap(d: nat, a: nat, b: nat)
    requires a > b
    ensures d * a >= d * b + d
  {
    assert d * a == d * b + d * (a - b);
    assert d * (a - b) == d + d * (a - b - 1);
  }

  lemma DivModUnique(x: nat, d: nat, q: nat, r: nat)
    requires d > 0 && x == d * q + r && r < d
    ensures x / d == q && x % d == r
  {
    var q', r' := x / d, x % d;
    assert x == d * q' + r';
    if q > q' {
      MulGap(d, q, q');
    } else if q < q' {
      MulGap(d, q', q);
    }
  }

  /** A quotient is below a bound exactly when the dividend is below the bound's multiple. */
  lemma QuotientBelow(x: nat, d: nat, bound: nat)
    requires d > 0
    ensures x / d < bound <==> x < d * bound
  {
    var q, r := x / d, x % d;
    assert x == d * q + r;
    if q < bound {
      MulGap(d, bound, q);
    } else if q > bound {
      MulGap(d, q, bound);
    }
  }

  /** Dividing by 2 and then by p is dividing by 2 * p. */
  lemma HalfThen(x: nat, p: nat)
    requires p > 0
    ensures x / 2 / p == x / (2 * p)
  {
    var y, t := x / 2, x % 2;
    var q, s := y / p, y % p;
    assert y == p * q + s && x == 2 * y + t;
    assert x == 2 * p * q + (2 * s + t);
    DivModUnique(x, 2 * p, q, 2 * s + t);
  }

  /** Dividing by 256 and then by p is dividing by 256 * p. */
  lemma DivideTwice(x: nat, p: nat)
    requires p > 0
    ensures x / 256 / p == x / (256 * p)
    ensures x / 256 % p == x % (256 * p) / 256
    ensures x % 256 == x % (256 * p) % 256
  {
    var y, t := x / 256, x % 256;
    var q, s := y / p, y % p;
    assert y == p * q + s && x == 256 * y + t;
    var r := 256 * s + t;
    assert x == 256 * p * q + r;
    assert 256 * s <= 256 * (p - 1);
    DivModUnique(x, 256 * p, q, r);
  }
}
