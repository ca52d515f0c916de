// The hyperperiod: least common multiple of the periods, built from Euclid's gcd.

module Hyperperiod {

  type Pos = n: int | n > 0 witness 1

  predicate Divides(d: int, n: int)
    requires d > 0
  {
    n % d == 0
  }

  lemma MultipleDivides(d: int, q: int)
    requires d > 0
    ensures Divides(d, d * q) && Divides(d, q * d) && d * q / d == q
  {
    assert d * q == q * d;
    ModOfProduct(d, q);
  }

  lemma MulGrows(d: int, q: int)
    requires d > 0
    ensures q >= 1 ==> d * q >= d
    ensures q <= -1 ==> d * q <= -d
  {
  }

  lemma ModOfProduct(d: int, q: int)
    requires d > 0
    ensures (d * q) % d == 0 && d * q / d == q
  {
    var quot, rem := (d * q) / d, (d * q) % d;
    assert d * q == d * quot + rem;
    assert d * (q - quot) == rem;
    MulGrows(d, q - quot);
  }

  lemma DividesQuotient(d: int, n: int) returns (q: int)
    requires d > 0 && Divides(d, n)
    ensures n == d * q && q == n / d
  {
    q := n / d;
  }

  /** Euclid's algorithm. */
  function Gcd(a: nat, b: nat): (g: nat)
    ensures a > 0 || b > 0 ==> g > 0
    decreases b
  {
    if b == 0 then a else Gcd(b, a % b)
  }

  lemma BezoutStep(a: int, b: int, q: int, r: int, x: int, y: int)
    requires a == b * q + r
    ensures x * b + y * r == y * a + (x - y * q) * b
  {
    assert y * r == y * a - y * (b * q);
    assert y * (b * q) == (y * q) * b;
  }

  lemma Combine(g: int, b: int, q: int, r: int)
    ensures (g * b) * q + g * r == g * (b * q + r)
  {
    assert (g * b) * q == g * (b * q);
  }

  /** The gcd is positive, divides both numbers, and is a combination of them. */
  lemma {:induction false} GcdBezout(a: nat, b: nat) returns (x: int, y: int)
    requires a > 0 || b > 0
    ensures Gcd(a, b) > 0 && Divides(Gcd(a, b), a) && Divides(Gcd(a, b), b)
    ensures Gcd(a, b) == x * a + y * b
    decreases b
  {
    if b == 0 {
      x, y := 1, 0;
    } else {
      var x', y' := GcdBezout(b, a % b);
      var g, q := Gcd(a, b), a / b;
      x, y := y', x' - y' * q;
      BezoutStep(a, b, q, a % b, x', y');
      var bq := DividesQuotient(g, b);
      var rq := DividesQuotient(g, a % b);
      Combine(g, bq, q, rq);
      MultipleDivides(g, bq * q + rq);
    }
  }

  function Lcm2(a: Pos, b: Pos): int
  {
    (a * b) / Gcd(a, b)
  }

  /** Lcm2 is a common multiple, and it divides every common multiple. */
  lemma Lcm2Least(a: nat, b: nat, m: int)
    requires a > 0 && b > 0
    ensures Lcm2(a, b) > 0 && Divides(a, Lcm2(a, b)) && Divides(b, Lcm2(a, b))
    ensures Divides(a, m) && Divides(b, m) ==> Divides(Lcm2(a, b), m)
  {
    var x, y := GcdBezout(a, b);
    var g := Gcd(a, b);
    var a' := DividesQuotient(g, a);
    var b' := DividesQuotient(g, b);
    var l := a * b';
    assert a * b == g * l by {
      assert a * (g * b') == g * (a * b');
    }
    MultipleDivides(g, l);
    assert Lcm2(a, b) == l;
    assert l == b * a' by {
      assert (g * a') * b' == (g * b') * a';
    }
    MultipleDivides(a, b');
    MultipleDivides(b, a');
    MulGrows(g, b');
    MulGrows(a, b');
    if Divides(a, m) && Divides(b, m) {
      var p := DividesQuotient(a, m);
      var q := DividesQuotient(b, m);
      CommonMultiple(a, b, g, x, y, l, m, p, q);
      MultipleDivides(l, x * q + y * p);
    }
  }

  /** With g = xa + yb, ab = gl and m = ap = bq, the multiple m is l times (xq + yp). */
  lemma CommonMultiple(a: int, b: int, g: int, x: int, y: int, l: int, m: int, p: int, q: int)
    requires g > 0 && g == x * a + y * b && a * b == g * l && m == a * p && m == b * q
    ensures m == l * (x * q + y * p)
  {
    assert g * m == (x * a) * m + (y * b) * m;
    assert (x * a) * (b * q) == (a * b) * (x * q);
    assert (y * b) * (a * p) == (a * b) * (y * p);
    assert g * m == (g * l) * (x * q + y * p) == g * (l * (x * q + y * p));
    CancelFactor(g, m, l * (x * q + y * p));
  }

  lemma CancelFactor(g: int, u: int, v: int)
    requires g > 0 && g * u == g * v
    ensures u == v
  {
    assert g * (u - v) == 0;
    MulGrows(g, u - v);
  }

  /** The reduction over all numbers, started at 1. */
  function Lcm(acc: Pos, numbers: seq<Pos>): Pos
    decreases |numbers|
  {
    if numbers == [] then acc
    else
      Lcm2Least(acc, numbers[0], 0);
      Lcm(Lcm2(acc, numbers[0]), numbers[1..])
  }

  lemma DividesTransitive(a: int, b: int, c: int)
    requires a > 0 && b > 0 && Divides(a, b) && Divides(b, c)
    ensures Divides(a, c)
  {
    var p := DividesQuotient(a, b);
    var q := DividesQuotient(b, c);
    assert c == a * (p * q) by {
      assert (a * p) * q == a * (p * q);
    }
    MultipleDivides(a, p * q);
  }

  lemma {:induction false} LcmLeast(acc: Pos, numbers: seq<Pos>, m: int)
    ensures Divides(acc, Lcm(acc, numbers))
    ensures forall n: Pos :: n in numbers ==> Divides(n, Lcm(acc, numbers))
    ensures Divides(acc, m) && (forall n: Pos :: n in numbers ==> Divides(n, m)) ==> Divides(Lcm(acc, numbers), m)
    decreases |numbers|
  {
    if numbers != [] {
      Lcm2Least(acc, numbers[0], m);
      var l: Pos := Lcm2(acc, numbers[0]);
      LcmLeast(l, numbers[1..], m);
      var h := Lcm(acc, numbers);
      DividesTransitive(acc, l, h);
      DividesTransitive(numbers[0], l, h);
      assert forall n: Pos :: n in numbers ==> n == numbers[0] || n in numbers[1..];
    }
  }

  /** The hyperperiod is the least positive time that every period divides. */
  lemma HyperperiodIsLeast(periods: seq<Pos>, m: Pos)
    ensures forall n: Pos :: n in periods ==> Divides(n, Lcm(1, periods))
    ensures (forall n: Pos :: n in periods ==> Divides(n, m)) ==> Lcm(1, periods) <= m
  {
    LcmLeast(1, periods, m);
    if forall n: Pos :: n in periods ==> Divides(n, m) {
      var q := DividesQuotient(Lcm(1, periods), m);
      MulGrows(Lcm(1, periods), q);
    }
  }
}
