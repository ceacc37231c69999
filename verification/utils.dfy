/**
 * The mixed-number text codec and the fraction helpers of `src/utils.py`:
 * answers are written as `N`, `N/D` or `I'R/D` and read back; problems are
 * deduplicated by a key made of their characters.
 */
module Utils {
  import opened Wrappers
  import opened Integers
  import opened Fractions
  import opened Text

  /** Why `parse_fraction` or `fraction_div` raised. */
  datatype FractionError =
    | UnpackError                  // `a, b = s.split(c)` did not find exactly two parts
    | InvalidLiteral(text: string) // `int(text)` rejected its argument
    | ZeroDivision                 // `Fraction(n, 0)` or a division by zero

  /** `format_fraction`: `N` for an integer, `I'R/D` when the numerator exceeds the denominator, else `N/D`. */
  function FormatFraction(f: Fraction): string {
    if f.den == 1 then IntToString(f.num)
    else if Abs(f.num) > f.den then
      IntToString(f.num / f.den) + "'" + IntToString(Abs(f.num) % f.den) + "/" + IntToString(f.den)
    else
      IntToString(f.num) + "/" + IntToString(f.den)
  }

  /** The characters an answer is written with. */
  predicate IsAnswerChar(c: char) {
    IsNumeral(c) || c == '\'' || c == '/'
  }

  /** `int(text)` as a result. */
  function ParseIntField(text: string): Result<int, FractionError> {
    match ParseInt(text)
    case Some(v) => Success(v)
    case None => Failure(InvalidLiteral(text))
  }

  /** `parse_fraction`: reads `I'R/D`, `N/D` or `N` (after stripping whitespace). */
  function ParseFraction(s: string): Result<Fraction, FractionError> {
    ParseStripped(Strip(s))
  }

  /** `parse_fraction` once `s.strip()` has been applied. */
  function ParseStripped(t: string): Result<Fraction, FractionError> {
    if '\'' in t then
      var parts := Split(t, '\'');
      if |parts| != 2 then Failure(UnpackError)
      else
        var pieces := Split(parts[1], '/');
        if |pieces| != 2 then Failure(UnpackError)
        else
          var whole :- ParseIntField(parts[0]);
          var frac :- ParseQuotient(pieces[0], pieces[1]);
          Success(Add(FromInt(whole), frac))
    else if '/' in t then
      var parts := Split(t, '/');
      if |parts| != 2 then Failure(UnpackError)
      else ParseQuotient(parts[0], parts[1])
    else
      var n :- ParseIntField(t);
      Success(FromInt(n))
  }

  /** `Fraction(int(num), int(den))`. */
  function ParseQuotient(num: string, den: string): Result<Fraction, FractionError> {
    var n :- ParseIntField(num);
    var d :- ParseIntField(den);
    if d == 0 then Failure(ZeroDivision) else Success(Make(n, d))
  }

  /** `normalize_expr`: the characters of `s` other than `' '`, in ascending order. */
  function NormalizeExpr(s: string): (key: string)
    ensures Sorted(key)
    ensures multiset(key) == multiset(s)[' ' := 0]
  {
    Sort(Remove(s, ' '))
  }

  /** `is_proper_fraction`: a non-zero numerator smaller in size than the denominator. */
  predicate IsProperFraction(f: Fraction) {
    0 < Abs(f.num) < f.den
  }

  /** `fraction_div`: `a / b`, raising ZeroDivisionError when `b == 0`. */
  function FractionDiv(a: Fraction, b: Fraction): (r: Result<Fraction, FractionError>)
    ensures r.Failure? <==> b == Zero
    ensures r.Success? ==> Value(r.value) * Value(b) == Value(a)
  {
    ZeroIsUnique(b);
    if b.num == 0 then Failure(ZeroDivision) else Success(Quot(a, b))
  }

  // ---------------------------------------------------------------------
  // The shape of formatted answers

  /** Every character of a formatted answer is a digit, `-`, `'` or `/`. */
  lemma FormatFractionChars(f: Fraction)
    ensures |FormatFraction(f)| > 0
    ensures forall c :: c in FormatFraction(f) ==> IsAnswerChar(c)
  {
    IntToStringChars(f.num);
    IntToStringChars(f.den);
    IntToStringChars(f.num / f.den);
    IntToStringChars(Abs(f.num) % f.den);
  }

  /**
   * The mixed form `I'R/D`: `D` is at least 2, the remainder `R` lies
   * strictly between 0 and `D`, and for a non-negative value `I + R/D` is
   * the value formatted.
   */
  lemma MixedParts(f: Fraction)
    requires f.den != 1 && Abs(f.num) > f.den
    ensures f.den >= 2
    ensures 0 < Abs(f.num) % f.den < f.den
    ensures f.num >= 0 ==> f.num == (f.num / f.den) * f.den + Abs(f.num) % f.den
  {
    var d := f.den;
    var a := Abs(f.num);
    if a % d == 0 {
      assert a == d * (a / d);
      GcdMultiple(a / d, d);
      assert false;
    }
  }

  lemma GcdMultiple(k: nat, d: nat)
    requires d > 0
    ensures Gcd(d * k, d) == d
  {
    DivExact(d * k, d, k);
    assert Gcd(d, 0) == d;
  }

  // ---------------------------------------------------------------------
  // Reading back what was written

  lemma ParseIntFieldOfIntToString(i: int)
    ensures ParseIntField(IntToString(i)) == Success(i)
    ensures '\'' !in IntToString(i) && '/' !in IntToString(i)
  {
    ParseIntOfIntToString(i);
    IntToStringChars(i);
  }

  /** The value `I'R/D` reads as. */
  lemma MixedValue(whole: int, num: int, den: int)
    requires den > 0
    ensures Value(Add(FromInt(whole), Make(num, den))) == (whole * den + num) as real / den as real
  {
    var w, n, d := whole as real, num as real, den as real;
    assert (whole * den + num) as real == w * d + n;
    assert (w * d + n) / d == w + n / d;
  }

  /** Text made of numerals, `'` and `/` has nothing to strip. */
  lemma StripAnswerText(s: string)
    requires forall x :: x in s ==> IsAnswerChar(x)
    ensures Strip(s) == s
  {
    StripByNoBlank(StripBlanks, s);
  }

  /** `(b + "/" + c).split('/') == [b, c]` for numerals `b` and `c`. */
  lemma SplitSlash(b: string, c: string)
    requires forall x :: x in b ==> IsNumeral(x)
    requires forall x :: x in c ==> IsNumeral(x)
    ensures Split(b + "/" + c, '/') == [b, c]
  {
    SplitAt(b, '/', c);
    SplitFree(c, '/');
  }

  /** `(a + "'" + b + "/" + c).split("'") == [a, b + "/" + c]` for numerals. */
  lemma SplitQuote(a: string, b: string, c: string)
    requires forall x :: x in a ==> IsNumeral(x)
    requires forall x :: x in b ==> IsNumeral(x)
    requires forall x :: x in c ==> IsNumeral(x)
    ensures '\'' in a + "'" + b + "/" + c
    ensures Split(a + "'" + b + "/" + c, '\'') == [a, b + "/" + c]
  {
    var s := a + "'" + b + "/" + c;
    var frac := b + "/" + c;
    assert s == a + ['\''] + frac;
    assert '\'' !in frac;
    SplitAt(a, '\'', frac);
    SplitFree(frac, '\'');
  }

  /** Reading the text `IntToString(n) + "/" + IntToString(d)` back. */
  lemma ParseSimple(n: int, d: int)
    requires d > 0
    ensures ParseFraction(IntToString(n) + "/" + IntToString(d)) == Success(Make(n, d))
  {
    ParseIntFieldOfIntToString(n);
    ParseIntFieldOfIntToString(d);
    IntToStringChars(n);
    IntToStringChars(d);
    ParseSimpleText(IntToString(n), IntToString(d), n, d);
  }

  /** Numerals `a` and `b` joined by `/` read as `Fraction(int(a), int(b))`. */
  lemma ParseSimpleText(a: string, b: string, n: int, d: int)
    requires d > 0 && ParseIntField(a) == Success(n) && ParseIntField(b) == Success(d)
    requires forall x :: x in a ==> IsNumeral(x)
    requires forall x :: x in b ==> IsNumeral(x)
    ensures ParseFraction(a + "/" + b) == Success(Make(n, d))
  {
    StripAnswerText(a + "/" + b);
    RatioText(a, b);
  }

  /** Numerals joined by `/` take the `N/D` branch of `parse_fraction`. */
  lemma RatioText(a: string, b: string)
    requires forall x :: x in a ==> IsNumeral(x)
    requires forall x :: x in b ==> IsNumeral(x)
    ensures ParseStripped(a + "/" + b) == ParseQuotient(a, b)
  {
    var s := a + "/" + b;
    assert '\'' !in a && '\'' !in b;
    assert '\'' !in s;
    assert s[|a|] == '/';
    SplitSlash(a, b);
  }

  /** Reading the text `IntToString(w) + "'" + IntToString(n) + "/" + IntToString(d)` back. */
  lemma ParseMixed(w: int, n: int, d: int)
    requires d > 0
    ensures ParseFraction(IntToString(w) + "'" + IntToString(n) + "/" + IntToString(d))
         == Success(Add(FromInt(w), Make(n, d)))
  {
    ParseIntFieldOfIntToString(w);
    ParseIntFieldOfIntToString(n);
    ParseIntFieldOfIntToString(d);
    IntToStringChars(w);
    IntToStringChars(n);
    IntToStringChars(d);
    ParseMixedText(IntToString(w), IntToString(n), IntToString(d), w, n, d);
  }

  /** Numerals `a`, `b`, `c` written `a'b/c` read as `int(a) + Fraction(int(b), int(c))`. */
  lemma ParseMixedText(a: string, b: string, c: string, w: int, n: int, d: int)
    requires d > 0 && ParseIntField(a) == Success(w)
    requires ParseIntField(b) == Success(n) && ParseIntField(c) == Success(d)
    requires forall x :: x in a ==> IsNumeral(x)
    requires forall x :: x in b ==> IsNumeral(x)
    requires forall x :: x in c ==> IsNumeral(x)
    ensures ParseFraction(a + "'" + b + "/" + c) == Success(Add(FromInt(w), Make(n, d)))
  {
    StripAnswerText(a + "'" + b + "/" + c);
    SplitQuote(a, b, c);
    SplitSlash(b, c);
  }

  /** Reading the text `IntToString(i)` back. */
  lemma ParseWhole(i: int)
    ensures ParseFraction(IntToString(i)) == Success(FromInt(i))
  {
    var s := IntToString(i);
    ParseIntFieldOfIntToString(i);
    IntToStringChars(i);
    StripByNoBlank(StripBlanks, s);
  }

  /** For a non-negative value, `I + R/D` read back from `I'R/D` is the fraction formatted. */
  lemma MixedDenotes(f: Fraction)
    requires f.num >= 0 && f.den != 1 && Abs(f.num) > f.den
    ensures Add(FromInt(f.num / f.den), Make(Abs(f.num) % f.den, f.den)) == f
  {
    var q, r := f.num / f.den, Abs(f.num) % f.den;
    MixedValue(q, r, f.den);
    MixedParts(f);
    CrossMultiply(q * f.den + r, f.den, f.num, f.den);
    ValueInjective(Add(FromInt(q), Make(r, f.den)), f);
  }

  lemma MixedRoundTrip(f: Fraction)
    requires f.num >= 0 && f.den != 1 && Abs(f.num) > f.den
    ensures ParseFraction(FormatFraction(f)) == Success(f)
  {
    var q, r := f.num / f.den, Abs(f.num) % f.den;
    assert FormatFraction(f) == IntToString(q) + "'" + IntToString(r) + "/" + IntToString(f.den);
    ParseMixed(q, r, f.den);
    MixedDenotes(f);
  }

  lemma SimpleRoundTrip(f: Fraction)
    requires f.den != 1 && Abs(f.num) <= f.den
    ensures ParseFraction(FormatFraction(f)) == Success(f)
  {
    assert FormatFraction(f) == IntToString(f.num) + "/" + IntToString(f.den);
    ParseSimple(f.num, f.den);
    CrossMultiply(f.num, f.den, f.num, f.den);
    ValueInjective(Make(f.num, f.den), f);
  }

  /**
   * `parse_fraction(format_fraction(f)) == f` for every non-negative
   * fraction, and for every negative one that is not written in mixed form.
   */
  lemma {:induction false} FormatThenParse(f: Fraction)
    requires f.num >= 0 || f.den == 1 || Abs(f.num) <= f.den
    ensures ParseFraction(FormatFraction(f)) == Success(f)
  {
    if f.den == 1 {
      ParseWhole(f.num);
    } else if Abs(f.num) > f.den {
      MixedRoundTrip(f);
    } else {
      SimpleRoundTrip(f);
    }
  }

  /**
   * A negative value in mixed form reads back as itself only when its
   * denominator is 2: `-7/3` is written `-3'1/3` (floor division for the
   * whole part, the remainder of the absolute value), which reads back as
   * `-3 + 1/3 == -8/3`.
   */
  lemma {:induction false} NegativeMixedRoundTrip(f: Fraction)
    requires f.num < 0 && f.den != 1 && Abs(f.num) > f.den
    ensures ParseFraction(FormatFraction(f)) == Success(f) <==> f.den == 2
  {
    var n, d := f.num, f.den;
    var q, r := n / d, Abs(n) % d;
    assert FormatFraction(f) == IntToString(q) + "'" + IntToString(r) + "/" + IntToString(d);
    ParseMixed(q, r, d);
    NegativeMixedDenotes(f);
  }

  /** What `I'R/D` written for a negative value denotes: the value itself only when `D == 2`. */
  lemma NegativeMixedDenotes(f: Fraction)
    requires f.num < 0 && f.den != 1 && Abs(f.num) > f.den
    ensures Add(FromInt(f.num / f.den), Make(Abs(f.num) % f.den, f.den)) == f <==> f.den == 2
  {
    var n, d := f.num, f.den;
    var q, r := n / d, Abs(n) % d;
    var g := Add(FromInt(q), Make(r, d));
    MixedValue(q, r, d);
    NegativeRemainder(f);
    if g == f {
      SameOverDenominator(q * d + r, n, d);
      HalfRemainder(f);
    }
    if d == 2 {
      CrossMultiply(q * d + r, d, n, d);
      ValueInjective(g, f);
    }
  }

  /** Equal quotients over one positive denominator have equal numerators. */
  lemma SameOverDenominator(x: int, y: int, d: int)
    requires d > 0 && x as real / d as real == y as real / d as real
    ensures x == y
  {
    CrossMultiplyBack(x, d, y, d);
    Cancel(d, x, y);
  }

  /** For a negative mixed number, the written remainder is `d - n % d`, and `n % d != 0`. */
  lemma NegativeRemainder(f: Fraction)
    requires f.num < 0 && f.den != 1 && Abs(f.num) > f.den
    ensures 0 < f.num % f.den && Abs(f.num) % f.den == f.den - f.num % f.den
    ensures f.den == 2 ==> f.num == (f.num / 2) * 2 + Abs(f.num) % 2
  {
    var n, d := f.num, f.den;
    var q, m := n / d, n % d;
    assert n == q * d + m && 0 <= m < d;
    if m == 0 {
      assert Abs(n) == d * (-q);
      CommonDivisorOfCoprime(Abs(n), d, d, -q, 1);
    }
    assert -n == (-q - 1) * d + (d - m);
    DivModUnique(-n, d, -q - 1, d - m);
  }

  /** If the written remainder equals `n % d`, the denominator is 2. */
  lemma HalfRemainder(f: Fraction)
    requires f.num < 0 && f.den != 1 && Abs(f.num) > f.den
    requires f.num == (f.num / f.den) * f.den + Abs(f.num) % f.den
    ensures f.den == 2
  {
    var n, d := f.num, f.den;
    var q, m := n / d, n % d;
    NegativeRemainder(f);
    assert n == q * d + m;
    assert 2 * m == d;
    assert Abs(n) == m * (-(2 * q + 1));
    CommonDivisorOfCoprime(Abs(n), d, m, -(2 * q + 1), 2);
  }

  /**
   * The codec round trip, exactly: `parse_fraction(format_fraction(f)) == f`
   * fails only for negative mixed numbers with a denominator above 2.
   */
  lemma {:induction false} RoundTripExactly(f: Fraction)
    ensures ParseFraction(FormatFraction(f)) == Success(f) <==> !(f.num < -f.den && f.den > 2)
  {
    if f.num < 0 && f.den != 1 && Abs(f.num) > f.den {
      NegativeMixedRoundTrip(f);
    } else {
      FormatThenParse(f);
    }
  }

  /** Which of the three forms `format_fraction` writes, read off its output. */
  lemma FormatShape(f: Fraction)
    ensures '/' !in FormatFraction(f) <==> f.den == 1
    ensures '\'' in FormatFraction(f) <==> f.den != 1 && Abs(f.num) > f.den
    ensures f.den == 1 ==> ParseInt(FormatFraction(f)) == Some(f.num)
  {
    ParseIntFieldOfIntToString(f.num);
    ParseIntFieldOfIntToString(f.den);
    ParseIntFieldOfIntToString(f.num / f.den);
    ParseIntFieldOfIntToString(Abs(f.num) % f.den);
    var s := FormatFraction(f);
    if f.den != 1 {
      if Abs(f.num) > f.den {
        var a := IntToString(f.num / f.den);
        assert s[|a|] == '\'';
        assert s[|a| + 1 + |IntToString(Abs(f.num) % f.den)|] == '/';
      } else {
        assert s[|IntToString(f.num)|] == '/';
      }
    }
  }

  /**
   * The cases in which `parse_fraction` raises: more than one `'`; a mixed
   * form whose part after the `'` does not hold exactly one `/`; without
   * `'`, more than one `/`; a zero denominator, in the `N/D` form and in
   * the `I'N/D` form alike.
   */
  lemma ParseFractionFailures(s: string)
    ensures multiset(Strip(s))['\''] == multiset(s)['\'']
    ensures multiset(Strip(s))['/'] == multiset(s)['/']
    ensures multiset(s)['\''] > 1 ==> ParseFraction(s) == Failure(UnpackError)
    ensures multiset(s)['\''] == 1 && multiset(Split(Strip(s), '\'')[1])['/'] != 1
      ==> ParseFraction(s) == Failure(UnpackError)
    ensures multiset(s)['\''] == 0 && multiset(s)['/'] > 1 ==> ParseFraction(s) == Failure(UnpackError)
    ensures multiset(s)['\''] == 0 && multiset(s)['/'] == 1
      && ParseInt(Split(Strip(s), '/')[0]).Some? && ParseInt(Split(Strip(s), '/')[1]) == Some(0)
      ==> ParseFraction(s) == Failure(ZeroDivision)
    ensures (multiset(s)['\''] == 1
      && var pieces := Split(Split(Strip(s), '\'')[1], '/');
      && |pieces| == 2
      && ParseInt(Split(Strip(s), '\'')[0]).Some?
      && ParseInt(pieces[0]).Some? && ParseInt(pieces[1]) == Some(0))
      ==> ParseFraction(s) == Failure(ZeroDivision)
  {
    StripKeeps(s, '\'');
    StripKeeps(s, '/');
  }

  /** `int()` of a part that holds a `'` or a `/` fails, so such parts are rejected. */
  lemma ParseIntRejectsMarks(s: string)
    requires '\'' in s || '/' in s
    ensures ParseInt(s) == None
  {
    IntStripKeeps(s, '\'');
    IntStripKeeps(s, '/');
  }

  // ---------------------------------------------------------------------
  // The deduplication key

  /** Two texts get the same key exactly when they hold the same non-space characters. */
  lemma {:induction false} NormalizeSameKey(s: string, t: string)
    ensures NormalizeExpr(s) == NormalizeExpr(t) <==> multiset(s)[' ' := 0] == multiset(t)[' ' := 0]
  {
    if multiset(s)[' ' := 0] == multiset(t)[' ' := 0] {
      SortedUnique(NormalizeExpr(s), NormalizeExpr(t));
    }
  }

  /** The key of a key is itself. */
  lemma {:induction false} NormalizeIdempotent(s: string)
    ensures NormalizeExpr(NormalizeExpr(s)) == NormalizeExpr(s)
  {
    var k := NormalizeExpr(s);
    assert multiset(k)[' ' := 0] == multiset(k);
    NormalizeSameKey(k, s);
  }

  /** Reordering the characters of a text, for example swapping two operands, keeps its key. */
  lemma {:induction false} NormalizeReorder(s: string, t: string)
    requires multiset(s) == multiset(t)
    ensures NormalizeExpr(s) == NormalizeExpr(t)
  {
    NormalizeSameKey(s, t);
  }

  // ---------------------------------------------------------------------
  // Proper fractions

  /** `is_proper_fraction(f)` holds exactly when `0 < |f| < 1`; never for an integer. */
  lemma ProperMeansBelowOne(f: Fraction)
    ensures IsProperFraction(f) <==> (0.0 < Value(f) < 1.0 || -1.0 < Value(f) < 0.0)
    ensures f.den == 1 ==> !IsProperFraction(f)
  {
    LessIsValueOrder(Zero, f);
    LessIsValueOrder(f, Zero);
    LessIsValueOrder(f, FromInt(1));
    LessIsValueOrder(FromInt(-1), f);
  }
}
