/**
 The greatest common divisor, by Euclid's algorithm, and the multiples it divides a half range into.
 */
module Divisors {

  function Gcd(a: nat, b: nat): (g: nat)
    requires a > 0 || b > 0
    ensures g > 0
    decreases b
  {
    if b == 0 then a else Gcd(b, a % b)
  }

  lemma DivMod(a: nat, b: nat)
    requires b > 0
    ensures a == b * (a / b) + a % b
  {
  }

  lemma Residue(v: int, a: nat) returns (n: nat, q: int)
    requires a > 0
    ensures n < a && n == v - a * q
  {
    n, q := v % a, v / a;
  }

  lemma TwoMultiples(g: int, u: int, q: int, v: int)
    ensures g * u * q + g * v == g * (u * q + v)
  {
    assert g * u * q == g * (u * q);
  }

  /** It divides both. */
  lemma {:induction false} GcdDivides(a: nat, b: nat) returns (x: nat, y: nat)
    requires a > 0 || b > 0
    ensures a == Gcd(a, b) * x && b == Gcd(a, b) * y
    decreases b
  {
    if b == 0 {
      x, y := 1, 0;
    } else {
      var u, v := GcdDivides(b, a % b);
      DivMod(a, b);
      TwoMultiples(Gcd(a, b), u, a / b, v);
      x, y := u * (a / b) + v, u;
    }
  }

  /** It is a sum of multiples of both. */
  lemma {:induction false} Bezout(a: nat, b: nat) returns (x: int, y: int)
    requires a > 0 || b > 0
    ensures a * x + b * y == Gcd(a, b)
    decreases b
  {
    if b == 0 {
      x, y := 1, 0;
    } else {
      var u, v := Bezout(b, a % b);
      DivMod(a, b);
      BezoutStep(a, b, a / b, a % b, u, v);
      x, y := v, u - (a / b) * v;
    }
  }

  lemma BezoutStep(a: int, b: int, q: int, m: int, u: int, v: int)
    requires a == b * q + m
    ensures a * v + b * (u - q * v) == b * u + m * v
  {
    assert a * v == b * q * v + m * v;
    assert b * (u - q * v) == b * u - b * (q * v);
    assert b * (q * v) == b * q * v;
  }

  /** The largest multiple of gcd(a, b) that is at most a / 2. */
  function Peak(a: nat, b: nat): (p: nat)
    requires a > 0
  {
    Gcd(a, b) * (a / Gcd(a, b) / 2)
  }

  /** The largest one below a / 2. */
  function Dip(a: nat, b: nat): (d: int)
    requires a > 0
  {
    Gcd(a, b) * ((a / Gcd(a, b) - 1) / 2)
  }

  lemma AtLeast(g: nat, k: nat)
    requires k > 0
    ensures g * k >= g
  {
    assert g * k == g * (k - 1) + g;
  }

  lemma Spread(g: nat, x: int, y: int)
    ensures g * x - g * y == g * (x - y)
  {
  }

  lemma QuotientOf(g: nat, x: nat)
    requires g > 0
    ensures g * x / g == x
  {
    var q := g * x / g;
    DivMod(g * x, g);
    Spread(g, x, q);
    if q < x {
      AtLeast(g, x - q);
    } else if x < q {
      Spread(g, q, x);
      AtLeast(g, q - x);
    }
  }

  lemma MulOrder(g: nat, x: int, y: int)
    requires g > 0
    ensures x <= y <==> g * x <= g * y
  {
    Spread(g, x, y);
    Spread(g, y, x);
    if x < y {
      AtLeast(g, y - x);
    } else if y < x {
      AtLeast(g, x - y);
    }
  }

  /** With x = a / g, the two in terms of g and x. */
  lemma Halves(a: nat, b: nat) returns (g: nat, x: int)
    requires a > 0
    ensures g == Gcd(a, b) && a == g * x && x > 0
    ensures Peak(a, b) == g * (x / 2) && Dip(a, b) == g * ((x - 1) / 2)
  {
    g := Gcd(a, b);
    var q, _ := GcdDivides(a, b);
    QuotientOf(g, q);
    x := q;
  }

  lemma Twice(g: nat, x: int)
    ensures g * (2 * x) == 2 * (g * x) && g * -x == -(g * x)
  {
  }

  lemma PeakInRange(a: nat, b: nat)
    requires a > 0
    ensures 2 * Peak(a, b) <= a && 0 <= 2 * Dip(a, b) < a
  {
    hide Peak;
    hide Dip;
    hide Gcd;
    var g, x := Halves(a, b);
    Twice(g, x / 2);
    Twice(g, (x - 1) / 2);
    MulOrder(g, 2 * (x / 2), x);
    MulOrder(g, x, 2 * ((x - 1) / 2));
    MulOrder(g, 0, (x - 1) / 2);
  }

  /** Every multiple within half of a, upper end included, lies between the two. */
  lemma MultipleBetween(a: nat, b: nat, t: int)
    requires a > 0 && 0 < a + 2 * (Gcd(a, b) * t) && 2 * (Gcd(a, b) * t) <= a
    ensures -Dip(a, b) <= Gcd(a, b) * t <= Peak(a, b)
  {
    hide Peak;
    hide Dip;
    hide Gcd;
    var g, x := Halves(a, b);
    Twice(g, t);
    Twice(g, x);
    Twice(g, (x - 1) / 2);
    MulOrder(g, 2 * t, x);
    MulOrder(g, 2 * t, -x);
    MulOrder(g, t, x / 2);
    MulOrder(g, -((x - 1) / 2), t);
  }
}
