/** Facts about quotients and remainders by a divisor that is not a constant. */
module Division {

  lemma Distributes(p: int, x: int, y: int)
    ensures p * (x + y) == p * x + p * y
  {
  }

  lemma Associates(a: int, b: int, c: int)
    ensures a * (b * c) == (a * b) * c
  {
  }

  lemma Multiples(d: int, e: int)
    requires d >= 0
    ensures e > 0 ==> d * e >= d
    ensures e < 0 ==> d * e <= -d
  {
  }

  lemma Divides(a: nat, d: nat)
    requires d > 0
    ensures a == d * (a / d) + a % d && 0 <= a % d < d && 0 <= a / d
  {
  }

  /** A quotient and a remainder are known by what they add up to. */
  lemma DivModIs(a: nat, d: nat, q: nat, r: nat)
    requires a == d * q + r && r < d
    ensures a / d == q && a % d == r
  {
    var e := a / d - q;
    Divides(a, d);
    Distributes(d, q, e);
    assert d * e == r - a % d;
    Multiples(d, e);
  }

  lemma SmallerThan(a: nat, d: nat)
    requires a < d
    ensures a / d == 0 && a % d == a
  {
    DivModIs(a, d, 0, a);
  }

  lemma QuotientBound(a: nat, d: nat, w: nat)
    requires d > 0 && a < d * w
    ensures a / d < w
  {
    Divides(a, d);
    if a / d >= w {
      Distributes(d, w, a / d - w);
      if a / d > w { Multiples(d, a / d - w); }
      assert false;
    }
  }

  lemma Shifted(a: nat, d: nat, w: nat)
    requires d > 0
    ensures d * w >= 0 && (a + d * w) / d == a / d + w && (a + d * w) % d == a % d
  {
    Divides(a, d);
    Distributes(d, a / d, w);
    if w > 0 { Multiples(d, w); }
    DivModIs(a + d * w, d, a / d + w, a % d);
  }

  lemma Below(d: nat, e: nat, q: nat, r: nat)
    requires q < e && r < d
    ensures 0 <= d * q && d * q + r < d * e
  {
    Distributes(d, q, e - q);
    Multiples(d, e - q);
    if q > 0 { Multiples(d, q); }
  }

  /** Dividing twice is dividing by the product; what is left is in two digits. */
  lemma DivDiv(a: nat, d: nat, e: nat)
    requires d > 0 && e > 0
    ensures d * e > 0 && a / d / e == a / (d * e)
    ensures a % (d * e) / d == a / d % e && a % (d * e) % d == a % d
  {
    var q, r := a / d, a % d;
    Divides(a, d);
    Divides(q, e);
    var low := d * (q % e) + r;
    Below(d, e, q % e, r);
    Distributes(d, e * (q / e), q % e);
    Associates(d, e, q / e);
    DivModIs(a, d * e, q / e, low);
    DivModIs(low, d, q % e, r);
  }
}
