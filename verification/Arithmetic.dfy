/** Facts about products and quotients of natural numbers. */
module Arithmetic {
  lemma MulAtLeast(a: nat, b: nat)
    requires a >= 1
    ensures a * b >= b
  {
  }

  lemma MulMono(a: nat, b: nat, c: nat)
    requires a <= b
    ensures a * c <= b * c
  {
  }

  lemma MulMono2(a: nat, b: nat, c: nat)
    requires b <= c
    ensures a * b <= a * c
  {
  }

  lemma CancelFactor(a: nat, b: nat, c: nat)
    requires c >= 1 && a * c <= b * c
    ensures a <= b
  {
    assert (b + 1) * c == b * c + c;
    if a > b { MulMono(b + 1, a, c); }
  }

  lemma QuotientBound(a: nat, d: nat)
    requires d >= 1
    ensures 0 <= a / d <= a
  {
    var q := a / d;
    assert q * d <= a;
    MulAtLeast(d, q);
  }

  lemma QuotientSpec(x: nat, t: nat)
    requires t >= 1
    ensures 0 <= x / t && (x / t) * t <= x < (x / t + 1) * t
  {
    var y := x / t;
    assert x == y * t + x % t;
    assert (y + 1) * t == y * t + t;
  }

  lemma Regroup(a: nat, t: nat, d: nat)
    ensures a * (t * d) == (a * d) * t
  {
  }

  lemma QuotientMono(a: nat, b: nat, d: nat)
    requires a <= b && d >= 1
    ensures a / d <= b / d
  {
    var x, y := a / d, b / d;
    assert x * d <= a && b < (y + 1) * d by { assert b == y * d + b % d; assert (y + 1) * d == y * d + d; }
    if x > y { MulMono(y + 1, x, d); }
  }

  lemma QuotientShrinks(acc: nat, num: nat, d: nat)
    requires d > num && acc >= 1
    ensures 0 <= (acc * num) / d < acc
  {
    var q := (acc * num) / d;
    assert q * d <= acc * num;
    assert acc * (num + 1) == acc * num + acc;
    MulMono2(acc, num + 1, d);
    if q >= acc { MulMono(acc, q, d); }
  }

  lemma HalfQuotient(acc: nat, num: nat, p: nat, d: nat)
    requires p <= acc * num && d >= 2 * num && num >= 1
    ensures 2 * (p / d) <= acc
  {
    var q := p / d;
    assert q * d <= p;
    MulMono2(q, 2 * num, d);
    assert q * (2 * num) == (2 * q) * num;
    CancelFactor(2 * q, acc, num);
  }

  lemma WholeDivision(a: nat, d: nat)
    requires 1 <= d <= a
    ensures a / d >= 1
  {
  }

  lemma SmallQuotient(a: nat, d: nat)
    requires a < d
    ensures a / d == 0
  {
  }

  lemma ExactQuotient(a: nat, t: nat)
    requires t >= 1
    ensures (a * t) / t == a
  {
    var q := (a * t) / t;
    assert q * t <= a * t;
    CancelFactor(q, a, t);
    assert a * t < (q + 1) * t by { assert a * t == q * t + (a * t) % t; assert (q + 1) * t == q * t + t; }
    if q < a { MulMono(q + 1, a, t); }
  }

  lemma QuotientAntitone(a: nat, d: nat, e: nat)
    requires 1 <= d <= e
    ensures a / e <= a / d
  {
    var x, y := a / e, a / d;
    assert x * e <= a;
    MulMono2(x, d, e);
    assert a < (y + 1) * d by { assert a == y * d + a % d; assert (y + 1) * d == y * d + d; }
    if x > y { MulMono(y + 1, x, d); }
  }

  lemma MulStep(a: nat, c: nat)
    ensures (a + 1) * c == a * c + c
  {
  }

  /** The whole part of a quotient is determined by its bounds. */
  lemma FloorUnique(x: nat, m: nat, a: nat, b: nat)
    requires a * m <= x < (a + 1) * m && b * m <= x < (b + 1) * m
    ensures a == b
  {
    if a < b { MulMono(a + 1, b, m); }
    if b < a { MulMono(b + 1, a, m); }
  }

  lemma ScaledFloor(q: nat, i: nat, a: nat, d: nat)
    requires q * i <= a < (q + 1) * i && d >= 1
    ensures q * (d * i) <= a * d < (q + 1) * (d * i)
  {
    Regroup(q, d, i);
    Regroup(q + 1, d, i);
    MulMono(q * i, a, d);
    MulMono(a + 1, (q + 1) * i, d);
    MulStep(a, d);
  }

  /** A common factor cancels from a quotient. */
  lemma CancelQuotient(a: nat, i: nat, d: nat)
    requires i >= 1 && d >= 1
    ensures d * i >= 1 && (a * d) / (d * i) == a / i
  {
    MulAtLeast(d, i);
    var m := d * i;
    QuotientSpec(a, i);
    ScaledFloor(a / i, i, a, d);
    QuotientSpec(a * d, m);
    FloorUnique(a * d, m, a / i, (a * d) / m);
  }
}
