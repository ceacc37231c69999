/**
 * Exact rationals as Python's `fractions.Fraction` keeps them: a numerator
 * and a positive denominator in lowest terms.  Because every value is kept
 * in this normal form, Python's `==` on fractions (which compares numerator
 * and denominator) is Dafny's structural equality on `Fraction`.
 */
module Fractions {
  import opened Integers

  datatype Rat = Rat(num: int, den: int)

  /** The normal form: positive denominator, numerator and denominator coprime. */
  predicate Reduced(x: Rat) {
    x.den > 0 && Gcd(Abs(x.num), x.den) == 1
  }

  type Fraction = x: Rat | Reduced(x) witness Rat(0, 1)

  /** The rational number a fraction denotes. */
  ghost function Value(x: Rat): real
    requires x.den != 0
  {
    x.num as real / x.den as real
  }

  /** The integer `i` as a fraction: `Fraction(i)`. */
  function FromInt(i: int): (r: Fraction)
    ensures Value(r) == i as real
  {
    GcdOne(Abs(i));
    Rat(i, 1)
  }

  const Zero: Fraction := FromInt(0)

  lemma ReduceFacts(n: int, d: int)
    requires d != 0
    ensures var g := Gcd(Abs(n), Abs(d));
      && g > 0
      && n == g * (n / g) && d == g * (d / g)
      && Gcd(Abs(n / g), Abs(d / g)) == 1
  {
    var g := Gcd(Abs(n), Abs(d));
    var p, q := DivideOutGcd(Abs(n), Abs(d));
    SignedMultiple(n, g, p);
    SignedMultiple(d, g, q);
  }

  /** A number whose size is `g * p` is `g` times a quotient of size `p`. */
  lemma SignedMultiple(x: int, g: int, p: nat)
    requires g > 0 && Abs(x) == g * p
    ensures x == g * (x / g) && Abs(x / g) == p
  {
    var s: int := if x < 0 then -1 else 1;
    assert x == g * (s * p);
    DivExact(x, g, s * p);
  }

  /** Dividing out a positive factor never makes a number larger. */
  lemma QuotientBound(d: int, g: int, q: int)
    requires g >= 1 && d == g * q
    ensures Abs(q) <= Abs(d)
  {
    MulBounds(g, Abs(q));
    assert Abs(d) == g * Abs(q);
  }

  lemma ScaledCross(n: int, d: int, g: int, p: int, q: int, s: int)
    requires n == g * p && d == g * q
    ensures (s * p) * d == n * (s * q)
  {
    assert (s * p) * (g * q) == (g * p) * (s * q);
  }

  /** Equal cross products mean equal quotients. */
  lemma CrossMultiply(a: int, b: int, c: int, d: int)
    requires b != 0 && d != 0 && a * d == c * b
    ensures a as real / b as real == c as real / d as real
  {
    assert (a * d) as real == a as real * d as real;
    assert (c * b) as real == c as real * b as real;
  }

  /** Equal quotients mean equal cross products. */
  lemma CrossMultiplyBack(a: int, b: int, c: int, d: int)
    requires b != 0 && d != 0 && a as real / b as real == c as real / d as real
    ensures a * d == c * b
  {
    assert (a * d) as real == a as real * d as real;
    assert (c * b) as real == c as real * b as real;
  }

  /**
   * `Fraction(n, d)` for a non-zero `d`: divides out the gcd and moves the
   * sign to the numerator.
   */
  function Make(n: int, d: int): (r: Fraction)
    requires d != 0
    ensures Value(r) == n as real / d as real
    ensures r.den <= Abs(d)
  {
    ReduceFacts(n, d);
    var g := Gcd(Abs(n), Abs(d));
    var s: int := if d < 0 then -1 else 1;
    var r: Fraction := Rat(s * (n / g), s * (d / g));
    ScaledCross(n, d, g, n / g, d / g, s);
    QuotientBound(d, g, d / g);
    CrossMultiply(r.num, r.den, n, d);
    r
  }

  /** `Fraction(n, d)` keeps the ratio `n : d`. */
  lemma MakeCross(n: int, d: int)
    requires d != 0
    ensures Make(n, d).num * d == n * Make(n, d).den
  {
    var r := Make(n, d);
    CrossMultiplyBack(r.num, r.den, n, d);
  }

  /** Two fractions with the same value are the same fraction. */
  lemma {:induction false} ValueInjective(a: Fraction, b: Fraction)
    requires Value(a) == Value(b)
    ensures a == b
  {
    CrossMultiplyBack(a.num, a.den, b.num, b.den);
    var j := CoprimeDivides(a.den, a.num, b.den, b.num);
    var j' := CoprimeDivides(b.den, b.num, a.den, a.num);
    assert a.den * (j * j') == a.den * 1;
    Cancel(a.den, j * j', 1);
    UnitFactor(j, j');
    Cancel(a.den, a.num, b.num);
  }

  /** `Fraction(n, d)` depends only on the value `n / d`. */
  lemma {:induction false} MakeSameValue(n: int, d: int, n': int, d': int)
    requires d != 0 && d' != 0
    ensures Make(n, d) == Make(n', d') <==> n * d' == n' * d
  {
    if n * d' == n' * d {
      CrossMultiply(n, d, n', d');
      ValueInjective(Make(n, d), Make(n', d'));
    } else if Make(n, d) == Make(n', d') {
      CrossMultiplyBack(n, d, n', d');
    }
  }

  lemma SumOfQuotients(p: real, q: real, s: real, t: real)
    requires q != 0.0 && t != 0.0
    ensures (p * t + s * q) / (q * t) == p / q + s / t
  {
    var u, v := p / q, s / t;
    assert p == u * q && s == v * t;
    assert p * t + s * q == (u + v) * (q * t);
  }

  lemma ProductOfQuotients(p: real, q: real, s: real, t: real)
    requires q != 0.0 && t != 0.0
    ensures (p * s) / (q * t) == (p / q) * (s / t)
  {
    var u, v := p / q, s / t;
    assert p == u * q && s == v * t;
    assert p * s == (u * v) * (q * t);
  }

  lemma SumValue(an: int, ad: int, bn: int, bd: int)
    requires ad != 0 && bd != 0
    ensures ad * bd != 0
    ensures (an * bd + bn * ad) as real / (ad * bd) as real
         == an as real / ad as real + bn as real / bd as real
  {
    assert (an * bd + bn * ad) as real == an as real * bd as real + bn as real * ad as real;
    assert (ad * bd) as real == ad as real * bd as real;
    SumOfQuotients(an as real, ad as real, bn as real, bd as real);
  }

  lemma DifferenceValue(an: int, ad: int, bn: int, bd: int)
    requires ad != 0 && bd != 0
    ensures ad * bd != 0
    ensures (an * bd - bn * ad) as real / (ad * bd) as real
         == an as real / ad as real - bn as real / bd as real
  {
    SumValue(an, ad, -bn, bd);
    assert an * bd - bn * ad == an * bd + (-bn) * ad;
  }

  lemma ProductValue(an: int, ad: int, bn: int, bd: int)
    requires ad != 0 && bd != 0
    ensures ad * bd != 0
    ensures (an * bn) as real / (ad * bd) as real
         == (an as real / ad as real) * (bn as real / bd as real)
  {
    assert (an * bn) as real == an as real * bn as real;
    assert (ad * bd) as real == ad as real * bd as real;
    ProductOfQuotients(an as real, ad as real, bn as real, bd as real);
  }

  /** `a + b` on fractions. */
  function Add(a: Fraction, b: Fraction): (r: Fraction)
    ensures Value(r) == Value(a) + Value(b)
  {
    SumValue(a.num, a.den, b.num, b.den);
    Make(a.num * b.den + b.num * a.den, a.den * b.den)
  }

  /** `a - b` on fractions. */
  function Sub(a: Fraction, b: Fraction): (r: Fraction)
    ensures Value(r) == Value(a) - Value(b)
  {
    DifferenceValue(a.num, a.den, b.num, b.den);
    Make(a.num * b.den - b.num * a.den, a.den * b.den)
  }

  /** `a * b` on fractions. */
  function Mul(a: Fraction, b: Fraction): (r: Fraction)
    ensures Value(r) == Value(a) * Value(b)
  {
    ProductValue(a.num, a.den, b.num, b.den);
    Make(a.num * b.num, a.den * b.den)
  }

  /** `a / b` on fractions; Python raises ZeroDivisionError when `b == 0`. */
  function Quot(a: Fraction, b: Fraction): (r: Fraction)
    requires b.num != 0
    ensures Value(r) * Value(b) == Value(a)
  {
    ProductValue(a.num, a.den, b.den, b.num);
    var r := Make(a.num * b.den, a.den * b.num);
    InverseFactor(Value(r), Value(a), b.num as real, b.den as real);
    r
  }

  lemma InverseFactor(w: real, x: real, p: real, q: real)
    requires p != 0.0 && q != 0.0 && w == x * (q / p)
    ensures w * (p / q) == x
  {
    assert (q / p) * (p / q) == 1.0;
  }

  /** `a < b` on fractions, by cross multiplication as Python does it. */
  predicate Less(a: Fraction, b: Fraction) {
    a.num * b.den < b.num * a.den
  }

  /** Python's `<` on fractions is the order of their values. */
  lemma LessIsValueOrder(a: Fraction, b: Fraction)
    ensures Less(a, b) <==> Value(a) < Value(b)
  {
    var an, ad, bn, bd := a.num as real, a.den as real, b.num as real, b.den as real;
    CompareQuotients(an, ad, bn, bd);
    assert (a.num * b.den) as real == an * bd;
    assert (b.num * a.den) as real == bn * ad;
  }

  /** Cross multiplication by positive denominators keeps the order of quotients. */
  lemma CompareQuotients(an: real, ad: real, bn: real, bd: real)
    requires ad > 0.0 && bd > 0.0
    ensures an * bd < bn * ad <==> an / ad < bn / bd
  {
    var u, v := an / ad, bn / bd;
    assert an == u * ad && bn == v * bd;
    var k := ad * bd;
    assert k > 0.0;
    assert an * bd == u * k && bn * ad == v * k;
    ScaleOrder(u, v, k);
  }

  lemma ScaleOrder(u: real, v: real, k: real)
    requires k > 0.0
    ensures u * k < v * k <==> u < v
  {
    assert v * k - u * k == (v - u) * k;
  }

  /** The only fraction with numerator 0 is `Fraction(0)`. */
  lemma ZeroIsUnique(f: Fraction)
    ensures f.num == 0 <==> f == Zero
  {
    assert Zero == Rat(0, 1);
    if f.num == 0 {
      assert Abs(f.num) == 0 && 0 % f.den == 0;
      assert Gcd(0, f.den) == Gcd(f.den, 0) == f.den;
      assert f.den == 1;
    }
  }

  /** Addition does not depend on the order of its operands. */
  lemma AddCommutes(a: Fraction, b: Fraction)
    ensures Add(a, b) == Add(b, a)
  {
    ValueInjective(Add(a, b), Add(b, a));
  }

  /** Subtracting what was added gives back the original fraction. */
  lemma SubUndoesAdd(a: Fraction, b: Fraction)
    ensures Sub(Add(a, b), b) == a
  {
    ValueInjective(Sub(Add(a, b), b), a);
  }

  /** Multiplication does not depend on the order of its operands. */
  lemma MulCommutes(a: Fraction, b: Fraction)
    ensures Mul(a, b) == Mul(b, a)
  {
    ValueInjective(Mul(a, b), Mul(b, a));
  }

  lemma NonZeroValue(b: Fraction)
    requires b.num != 0
    ensures Value(b) != 0.0
  {
    var v := Value(b);
    assert v * b.den as real == b.num as real;
  }

  lemma CancelFactor(w: real, u: real, v: real, p: real)
    requires v != 0.0 && w * v == p && p == u * v
    ensures w == u
  {
    assert (w - u) * v == 0.0;
  }

  /** Dividing by a non-zero factor undoes multiplying by it. */
  lemma QuotUndoesMul(a: Fraction, b: Fraction)
    requires b.num != 0
    ensures Quot(Mul(a, b), b) == a
  {
    var p := Mul(a, b);
    CancelProduct(Quot(p, b), a, b, p);
  }

  /** A fraction that times `b` gives `a * b` is `a`, when `b` is not zero. */
  lemma CancelProduct(q: Fraction, a: Fraction, b: Fraction, p: Fraction)
    requires b.num != 0
    requires Value(p) == Value(a) * Value(b) && Value(q) * Value(b) == Value(p)
    ensures q == a
  {
    NonZeroValue(b);
    CancelFactor(Value(q), Value(a), Value(b), Value(p));
    ValueInjective(q, a);
  }
}
