/**
 * Integer facts behind the normal form of a fraction: the greatest common
 * divisor (what `math.gcd` computes for `fractions.Fraction`), its
 * divisibility properties and Bezout's identity.
 */
module Integers {

  function Abs(x: int): (r: nat)
    ensures r == x || r == -x
  {
    if x < 0 then -x else x
  }

  /** Euclid's algorithm on non-negative integers. */
  function Gcd(a: nat, b: nat): nat
    decreases b
  {
    if b == 0 then a else Gcd(b, a % b)
  }

  /** If `h * k == 1` for a positive `h`, then `h` is 1. */
  lemma UnitFactor(h: int, k: int)
    requires h > 0 && h * k == 1
    ensures h == 1 && k == 1
  {
  }

  /** Exact division: dividing a multiple of `g` by `g` gives the factor back. */
  lemma DivExact(x: int, g: int, k: int)
    requires g > 0 && x == g * k
    ensures x / g == k && x % g == 0
  {
    var q, r := x / g, x % g;
    assert x == g * q + r && 0 <= r < g;
    assert g * (k - q) == r;
    MulBounds(g, k - q);
  }

  lemma MulBounds(g: int, t: int)
    requires g > 0
    ensures t >= 1 ==> g * t >= g
    ensures t <= -1 ==> g * t <= -g
  {
  }

  /** Multiplying out a combination of two multiples of `g`. */
  lemma Combine(g: int, x: int, p: int, y: int, q: int)
    ensures g * (x * p + y * q) == x * (g * p) + y * (g * q)
  {
  }

  lemma Cancel(g: int, u: int, v: int)
    requires g != 0 && g * u == g * v
    ensures u == v
  {
    assert g * (u - v) == 0;
  }

  /** The gcd divides both arguments; the cofactors are returned. */
  lemma {:induction false} GcdDivides(a: nat, b: nat) returns (p: nat, q: nat)
    ensures a == Gcd(a, b) * p && b == Gcd(a, b) * q
    decreases b
  {
    if b == 0 {
      p, q := 1, 0;
    } else {
      var p', q' := GcdDivides(b, a % b);
      var k: nat := a / b;
      p := GcdStep(a, b, Gcd(a, b), p', q', k, a % b);
      q := p';
    }
  }

  lemma GcdStep(a: int, b: int, g: int, p': nat, q': nat, k: nat, r: int) returns (p: nat)
    requires b == g * p' && r == g * q' && a == k * b + r
    ensures p == k * p' + q' && a == g * p
  {
    p := k * p' + q';
    assert k * b == g * (k * p');
  }

  /** Bezout's identity: the gcd is an integer combination of the arguments. */
  lemma {:induction false} Bezout(a: nat, b: nat) returns (x: int, y: int)
    ensures x * a + y * b == Gcd(a, b)
    decreases b
  {
    if b == 0 {
      x, y := 1, 0;
    } else {
      var x', y' := Bezout(b, a % b);
      var k := a / b;
      assert a == k * b + a % b;
      x, y := y', x' - y' * k;
      calc {
        x * a + y * b;
        y' * a + x' * b - y' * (k * b);
        x' * b + y' * (a - k * b);
        x' * b + y' * (a % b);
        Gcd(a, b);
      }
    }
  }

  lemma GcdPositive(a: nat, b: nat)
    requires a > 0 || b > 0
    ensures Gcd(a, b) > 0
  {
    var p, q := GcdDivides(a, b);
  }

  /** `Gcd(a, 1) == 1`: every integer is in lowest terms over 1. */
  lemma GcdOne(a: nat)
    ensures Gcd(a, 1) == 1
  {
    assert a % 1 == 0;
  }

  /**
   * Dividing both arguments by their gcd leaves coprime cofactors; this is
   * why `Fraction(n, d)` is always in lowest terms.
   */
  lemma DivideOutGcd(a: nat, b: nat) returns (p: nat, q: nat)
    requires b > 0
    ensures Gcd(a, b) > 0 && a == Gcd(a, b) * p && b == Gcd(a, b) * q
    ensures q > 0 && Gcd(p, q) == 1
  {
    var g := Gcd(a, b);
    GcdPositive(a, b);
    p, q := GcdDivides(a, b);
    var x, y := Bezout(a, b);
    Combine(g, x, p, y, q);
    Cancel(g, x * p + y * q, 1);
    var h := Gcd(p, q);
    GcdPositive(p, q);
    var p2, q2 := GcdDivides(p, q);
    Combine(h, x, p2, y, q2);
    UnitFactor(h, x * p2 + y * q2);
  }

  /**
   * Euclid's lemma: if `d` is coprime to `n` and divides `n * m`, then it
   * divides `m`; the cofactor is returned.
   */
  lemma CoprimeDivides(d: nat, n: int, m: int, k: int) returns (j: int)
    requires d > 0 && Gcd(Abs(n), d) == 1 && n * m == d * k
    ensures m == d * j
  {
    var x, y := Bezout(Abs(n), d);
    var s := if n < 0 then -1 else 1;
    assert Abs(n) == s * n;
    j := x * s * k + y * m;
    calc {
      m;
      (x * Abs(n) + y * d) * m;
      x * (s * (n * m)) + y * d * m;
      x * (s * (d * k)) + y * d * m;
      d * (x * s * k + y * m);
    }
  }

  /** A positive common divisor of two coprime numbers is 1. */
  lemma CommonDivisorOfCoprime(a: nat, b: nat, m: int, p: int, q: int)
    requires Gcd(a, b) == 1 && m > 0 && a == m * p && b == m * q
    ensures m == 1
  {
    var x, y := Bezout(a, b);
    Combine(m, x, p, y, q);
    UnitFactor(m, x * p + y * q);
  }

  /** Quotient and remainder are unique: Dafny's `/` and `%` for a positive divisor. */
  lemma DivModUnique(x: int, d: int, q: int, r: int)
    requires d > 0 && 0 <= r < d && x == q * d + r
    ensures x / d == q && x % d == r
  {
    var q', r' := x / d, x % d;
    assert x == d * q' + r' && 0 <= r' < d;
    assert d * (q - q') == r' - r;
    MulBounds(d, q - q');
  }
}
