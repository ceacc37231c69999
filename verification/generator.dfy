/**
 * The exercise generator of `src/generator.py`: random numbers and random
 * expression trees, their evaluation under the exercise rules (no negative
 * differences, proper quotients only), their rendering as text, and the
 * loop that collects `n` distinct exercises.
 *
 * Python's `random` module is replaced by explicit choices: every value a
 * `random.randint` or `random.choice` call would return is a field of a
 * choice datatype, and a `...Fits` predicate states the range the call
 * draws from.
 */
module Generator {
  import opened Wrappers
  import opened Integers
  import opened Fractions
  import opened Text
  import opened Utils

  /** The four operators of `OPS`. */
  datatype Op = Plus | Minus | Times | Divide

  /** The character each operator is written with. */
  function Glyph(op: Op): (c: char)
    ensures c in "+-×÷"
    ensures c != ' ' && c != '(' && c != ')'
  {
    match op
    case Plus => '+'
    case Minus => '-'
    case Times => '×'
    case Divide => '÷'
  }

  /** Distinct operators are written with distinct characters. */
  lemma GlyphInjective(a: Op, b: Op)
    ensures Glyph(a) == Glyph(b) <==> a == b
  {
  }

  /**
   * An expression: a number (the Python code keeps an `int` or a
   * `Fraction`; both are `Fraction(expr)` to every consumer) or a tuple
   * `(op, left, right)`.
   */
  datatype Expr = Leaf(value: Fraction) | Node(op: Op, left: Expr, right: Expr)

  /** The number of operators in an expression. */
  function OpCount(e: Expr): nat {
    match e
    case Leaf(_) => 0
    case Node(_, l, r) => 1 + OpCount(l) + OpCount(r)
  }

  /** Why generating or evaluating an exercise raised. */
  datatype Error =
    | EmptyRange          // `random.randint(0, r - 1)` with `r < 1`
    | NegativeDifference  // `l - r` with `l < r`
    | ZeroDivisor         // `l ÷ r` with `r == 0`
    | ImproperQuotient    // `l ÷ r` whose result is not below 1

  // ---------------------------------------------------------------------
  // random_number
  // ---------------------------------------------------------------------

  /**
   * The draws of one `random_number(r)` call: the first coin picks a
   * natural number `n` or a fraction with denominator `den`, numerator
   * `num` and integer part `whole`.
   */
  datatype NumberChoice =
    | Natural(n: int)
    | Proper(den: int, num: int, whole: int)

  /** The largest denominator `random_number(r)` draws. */
  function DenLimit(r: int): int {
    if r > 2 then r - 1 else 2
  }

  /** The largest integer part `random_number(r)` draws. */
  function WholeLimit(r: int): int {
    if r > 3 then r / 2 else 0
  }

  /** The ranges of the `randint` calls in `random_number(r)`. */
  predicate NumberChoiceFits(r: int, c: NumberChoice) {
    match c
    case Natural(n) => r >= 1 ==> 0 <= n <= r - 1
    case Proper(den, num, whole) =>
      2 <= den <= DenLimit(r) && 1 <= num <= den - 1 && 0 <= whole <= WholeLimit(r)
  }

  /**
   * The values `random_number(r)` can return: a natural number below `r`,
   * or a non-integer above 0 whose denominator and integer part are within
   * the limits the draws allow.
   */
  predicate Drawable(r: int, f: Fraction) {
    || (f.den == 1 && 0 <= f.num < r)
    || (2 <= f.den <= DenLimit(r) && f.num > 0 && f.num / f.den <= WholeLimit(r))
  }

  /** `random_number(r)` for the given draws. */
  function RandomNumber(r: int, c: NumberChoice): (x: Result<Fraction, Error>)
    requires NumberChoiceFits(r, c)
    ensures x.Failure? <==> c.Natural? && r < 1
    ensures x.Success? ==> Drawable(r, x.value)
    ensures c.Proper? ==> x.Success? && x.value.den >= 2
    ensures c.Natural? && r >= 1 ==> x == Success(FromInt(c.n))
  {
    match c
    case Natural(n) =>
      if r < 1 then Failure(EmptyRange) else Success(FromInt(n))
    case Proper(den, num, whole) =>
      ProperDraw(den, num, whole);
      if whole != 0 then Success(Make(whole * den + num, den))
      else Success(Make(num, den))
  }

  /** `t * den == num * fd` with `0 < num < den` puts `t` strictly between 0 and `fd`. */
  lemma ScaledRemainder(t: int, den: int, num: int, fd: int)
    requires den > 0 && fd > 0 && 0 < num < den && t * den == num * fd
    ensures 0 < t < fd
  {
    assert num * fd > 0;
    if t <= 0 {
      MulBounds(den, -t);
    }
    assert (fd - t) * den == (den - num) * fd;
    assert (den - num) * fd > 0;
    if fd - t <= 0 {
      MulBounds(den, t - fd);
    }
  }

  /**
   * The fraction `(whole * den + num) / den` in lowest terms keeps the
   * integer part `whole` and a denominator between 2 and `den`.
   */
  lemma ProperDraw(den: int, num: int, whole: int)
    requires 2 <= den && 1 <= num < den && whole >= 0
    ensures var f := Make(whole * den + num, den);
      2 <= f.den <= den && f.num > 0 && f.num / f.den == whole
    ensures whole == 0 ==> Make(num, den) == Make(whole * den + num, den)
  {
    var f := Make(whole * den + num, den);
    var fn, fd := f.num, f.den;
    MakeCross(whole * den + num, den);
    ShiftRemainder(fn, fd, whole, den, num);
    ScaledRemainder(fn - whole * fd, den, num, fd);
    DivModUnique(fn, fd, whole, fn - whole * fd);
    MulBounds(fd, whole);
  }

  lemma ShiftRemainder(fn: int, fd: int, whole: int, den: int, num: int)
    requires fn * den == (whole * den + num) * fd
    ensures (fn - whole * fd) * den == num * fd
    ensures fn == whole * fd + (fn - whole * fd)
  {
    assert (whole * den + num) * fd == whole * fd * den + num * fd;
  }

  /** A positive numerator coprime to a denominator of at least 2 leaves a remainder. */
  lemma CoprimeRemainder(num: int, den: int)
    requires num > 0 && den >= 2 && Gcd(num, den) == 1
    ensures num % den != 0
  {
  }

  /** A fraction already in lowest terms is its own `Fraction(num, den)`. */
  lemma MakeReduced(f: Fraction)
    ensures Make(f.num, f.den) == f
  {
    ValueInjective(Make(f.num, f.den), f);
  }

  /**
   * Every drawable value is returned by some admissible draws, so
   * `Drawable(r, _)` is exactly the range of `random_number(r)`.
   */
  lemma RandomNumberOnto(r: int, f: Fraction) returns (c: NumberChoice)
    requires Drawable(r, f)
    ensures NumberChoiceFits(r, c) && RandomNumber(r, c) == Success(f)
  {
    if f.den == 1 {
      c := Natural(f.num);
    } else {
      c := ProperOnto(r, f);
    }
  }

  /** The draws of the fraction branch that give a drawable non-integer `f`. */
  lemma ProperOnto(r: int, f: Fraction) returns (c: NumberChoice)
    requires Drawable(r, f) && f.den != 1
    ensures NumberChoiceFits(r, c) && RandomNumber(r, c) == Success(f)
  {
    var q := f.den;
    assert 2 <= q <= DenLimit(r) && f.num > 0 && f.num / q <= WholeLimit(r);
    var w, m := f.num / q, f.num % q;
    DivParts(f.num, q);
    CoprimeRemainder(f.num, q);
    c := Proper(q, m, w);
    ProperResult(r, q, m, w);
    MakeReduced(f);
  }

  /** Integer part and remainder of a positive `n` over `q >= 2`. */
  lemma DivParts(n: int, q: int)
    requires n > 0 && q >= 2
    ensures n == n / q * q + n % q && 0 <= n % q < q && 0 <= n / q
  {
  }

  /** The fraction branch of `random_number(r)` returns `Fraction(whole * den + num, den)`. */
  lemma ProperResult(r: int, den: int, num: int, whole: int)
    requires NumberChoiceFits(r, Proper(den, num, whole))
    ensures RandomNumber(r, Proper(den, num, whole)) == Success(Make(whole * den + num, den))
  {
    ProperDraw(den, num, whole);
  }

  /** For `r >= 1` every value `random_number(r)` returns lies in `[0, r)`. */
  lemma DrawableInRange(r: int, f: Fraction)
    requires Drawable(r, f) && r >= 1
    ensures 0.0 <= Value(f) < r as real
  {
    if f.den == 1 {
    } else {
      var n, d := f.num, f.den;
      var w := n / d;
      WholeBelowRange(r, w);
      NextMultiple(n, d, w, r);
      BelowBound(n, d, r);
    }
  }

  /** An integer part within `WholeLimit(r)` is below `r`, for `r >= 1`. */
  lemma WholeBelowRange(r: int, w: int)
    requires r >= 1 && w <= WholeLimit(r)
    ensures w + 1 <= r
  {
  }

  /** `n` is below `(n / d + 1) * d`, hence below `r * d` when `n / d < r`. */
  lemma NextMultiple(n: int, d: int, w: int, r: int)
    requires d > 0 && w == n / d && w + 1 <= r
    ensures n < r * d
  {
    assert n < (w + 1) * d;
    MulBounds(d, r - w - 1);
    assert r * d == (w + 1) * d + (r - w - 1) * d;
  }

  /** `n < r * d` with `d > 0` means `n / d < r` over the reals. */
  lemma BelowBound(n: int, d: int, r: int)
    requires d > 0 && 0 <= n < r * d
    ensures 0.0 <= n as real / d as real < r as real
  {
    var v := n as real / d as real;
    assert v * d as real == n as real;
    assert (r * d) as real == r as real * d as real;
  }

  /**
   * For `r <= 2` the fraction branch always returns `1/2`; for `r <= 0` that
   * lies outside the documented range `[0, r)`.
   */
  lemma ProperBelowRange(r: int, c: NumberChoice)
    requires r <= 2 && c.Proper? && NumberChoiceFits(r, c)
    ensures RandomNumber(r, c) == Success(Make(1, 2))
  {
  }

  // ---------------------------------------------------------------------
  // random_expr
  // ---------------------------------------------------------------------

  /**
   * The draws of one `random_expr(r, max_ops)` call: a number when no
   * operator is left, otherwise the operator from `random.choice(OPS)`, the
   * `randint` split of the remaining operators (drawn for `+` and `×`
   * only) and the draws of both operands.
   */
  datatype ExprChoice =
    | NumberDraw(number: NumberChoice)
    | OpDraw(op: Op, split: int, left: ExprChoice, right: ExprChoice)

  /** `+` and `×`, whose operands share the remaining operators at random. */
  predicate IsCommutative(op: Op) {
    op == Plus || op == Times
  }

  /** `left_ops`: the drawn split for `+` and `×`, all remaining operators otherwise. */
  function LeftOps(op: Op, maxOps: int, split: int): int {
    if IsCommutative(op) then split else maxOps - 1
  }

  /** The ranges of the draws of `random_expr(r, max_ops)`. */
  predicate ExprChoiceFits(r: int, maxOps: int, c: ExprChoice)
    decreases c
  {
    match c
    case NumberDraw(n) => maxOps == 0 && NumberChoiceFits(r, n)
    case OpDraw(op, split, left, right) =>
      var lo := LeftOps(op, maxOps, split);
      && maxOps > 0
      && (IsCommutative(op) ==> 0 <= split <= maxOps - 1)
      && ExprChoiceFits(r, lo, left)
      && ExprChoiceFits(r, maxOps - 1 - lo, right)
  }

  /** Some number among the draws takes the natural-number branch. */
  predicate DrawsNatural(c: ExprChoice) {
    match c
    case NumberDraw(n) => n.Natural?
    case OpDraw(_, _, left, right) => DrawsNatural(left) || DrawsNatural(right)
  }

  /** The shape `random_expr` builds: `-` and `÷` always have a number as right operand. */
  predicate WellShaped(e: Expr) {
    match e
    case Leaf(_) => true
    case Node(op, l, r) =>
      WellShaped(l) && WellShaped(r) && (!IsCommutative(op) ==> r.Leaf?)
  }

  /** Every number in the expression is one `random_number(r)` can return. */
  predicate LeavesDrawable(r: int, e: Expr) {
    match e
    case Leaf(v) => Drawable(r, v)
    case Node(_, left, right) => LeavesDrawable(r, left) && LeavesDrawable(r, right)
  }

  /** `random_expr(r, max_ops)` for the given draws. */
  function RandomExpr(r: int, maxOps: int, c: ExprChoice): (x: Result<Expr, Error>)
    requires ExprChoiceFits(r, maxOps, c)
    ensures x.Failure? <==> r < 1 && DrawsNatural(c)
    ensures x.Success? ==> OpCount(x.value) == maxOps
    ensures x.Success? ==> WellShaped(x.value) && LeavesDrawable(r, x.value)
    decreases c
  {
    match c
    case NumberDraw(n) =>
      var v :- RandomNumber(r, n);
      Success(Leaf(v))
    case OpDraw(op, split, lc, rc) =>
      var lo := LeftOps(op, maxOps, split);
      var left :- RandomExpr(r, lo, lc);
      var right :- RandomExpr(r, maxOps - 1 - lo, rc);
      Success(Node(op, left, right))
  }

  /**
   * Every well-shaped expression over drawable numbers is built by some
   * admissible draws: together with the contract of `RandomExpr`, these are
   * exactly the expressions `random_expr(r, k)` returns.
   */
  lemma {:induction false} RandomExprOnto(r: int, e: Expr) returns (c: ExprChoice)
    requires WellShaped(e) && LeavesDrawable(r, e)
    ensures ExprChoiceFits(r, OpCount(e), c)
    ensures RandomExpr(r, OpCount(e), c) == Success(e)
  {
    match e
    case Leaf(v) =>
      var n := RandomNumberOnto(r, v);
      c := NumberDraw(n);
    case Node(op, l, rr) =>
      var lc := RandomExprOnto(r, l);
      var rc := RandomExprOnto(r, rr);
      c := OpDraw(op, OpCount(l), lc, rc);
  }

  // ---------------------------------------------------------------------
  // eval_expr
  // ---------------------------------------------------------------------

  /** The arithmetic an operator stands for, over the reals (`÷ 0` is never used). */
  ghost function RealApply(op: Op, u: real, v: real): real {
    match op
    case Plus => u + v
    case Minus => u - v
    case Times => u * v
    case Divide => if v == 0.0 then 0.0 else u / v
  }

  /** The exercise rules: no negative difference, only proper quotients by non-zero divisors. */
  ghost predicate Applicable(op: Op, u: real, v: real) {
    match op
    case Plus => true
    case Minus => u >= v
    case Times => true
    case Divide => v != 0.0 && u / v < 1.0
  }

  /** A fraction has value 0 exactly when it is `Fraction(0)`. */
  lemma ZeroValue(b: Fraction)
    ensures Value(b) == 0.0 <==> b == Zero
  {
    ZeroIsUnique(b);
    if b.num != 0 {
      NonZeroValue(b);
    }
  }

  /** The quotient `q` of `a` by `b` is `Value(a) / Value(b)`; it is improper exactly when it is at least 1. */
  lemma QuotientFacts(a: Fraction, b: Fraction, q: Fraction)
    requires Value(b) != 0.0 && Value(q) * Value(b) == Value(a)
    ensures Value(q) == Value(a) / Value(b)
    ensures q.num >= q.den <==> Value(q) >= 1.0
  {
    LessIsValueOrder(q, FromInt(1));
  }

  /** One step of `eval_expr`: the operator applied to the values of both operands. */
  function Apply(op: Op, a: Fraction, b: Fraction): (x: Result<Fraction, Error>)
    ensures x.Success? <==> Applicable(op, Value(a), Value(b))
    ensures x.Success? ==> Value(x.value) == RealApply(op, Value(a), Value(b))
  {
    match op
    case Plus => Success(Add(a, b))
    case Minus => CheckedDifference(a, b)
    case Times => Success(Mul(a, b))
    case Divide => CheckedQuotient(a, b)
  }

  /** The `-` branch of `eval_expr`: a negative difference raises. */
  function CheckedDifference(a: Fraction, b: Fraction): (x: Result<Fraction, Error>)
    ensures x.Failure? <==> Value(a) < Value(b)
    ensures x.Failure? ==> x.error == NegativeDifference
    ensures x.Success? ==> Value(x.value) == Value(a) - Value(b)
  {
    LessIsValueOrder(a, b);
    if Less(a, b) then Failure(NegativeDifference) else Success(Sub(a, b))
  }

  /** The `÷` branch of `eval_expr`: a zero divisor or a quotient of at least 1 raises. */
  function CheckedQuotient(a: Fraction, b: Fraction): (x: Result<Fraction, Error>)
    ensures x.Success? <==> Value(b) != 0.0 && Value(a) / Value(b) < 1.0
    ensures x == Failure(ZeroDivisor) <==> b == Zero
    ensures x.Failure? && b != Zero ==> x.error == ImproperQuotient
    ensures x.Success? ==> Value(x.value) == Value(a) / Value(b)
  {
    ZeroValue(b);
    if b == Zero then Failure(ZeroDivisor)
    else
      ZeroIsUnique(b);
      var q := Quot(a, b);
      QuotientFacts(a, b, q);
      if q.num >= q.den then Failure(ImproperQuotient) else Success(q)
  }

  /** `eval_expr`: the left operand first, then the right one, then the operator. */
  function Eval(e: Expr): Result<Fraction, Error> {
    match e
    case Leaf(v) => Success(v)
    case Node(op, left, right) =>
      var l :- Eval(left);
      var r :- Eval(right);
      Apply(op, l, r)
  }

  /** The value an expression denotes in exact real arithmetic. */
  ghost function Meaning(e: Expr): real {
    match e
    case Leaf(v) => Value(v)
    case Node(op, l, r) => RealApply(op, Meaning(l), Meaning(r))
  }

  /** Every operator of the expression obeys the exercise rules. */
  ghost predicate Admissible(e: Expr) {
    match e
    case Leaf(_) => true
    case Node(op, l, r) => Admissible(l) && Admissible(r) && Applicable(op, Meaning(l), Meaning(r))
  }

  /**
   * `eval_expr` succeeds exactly on the expressions that obey the exercise
   * rules, and then computes their exact value.
   */
  lemma {:induction false} EvalMeaning(e: Expr)
    ensures Eval(e).Success? <==> Admissible(e)
    ensures Eval(e).Success? ==> Value(Eval(e).value) == Meaning(e)
  {
    match e
    case Leaf(_) =>
    case Node(op, l, r) =>
      EvalMeaning(l);
      EvalMeaning(r);
  }

  /** No number of the expression is negative. */
  ghost predicate LeavesNonNegative(e: Expr) {
    match e
    case Leaf(v) => Value(v) >= 0.0
    case Node(_, l, r) => LeavesNonNegative(l) && LeavesNonNegative(r)
  }

  /** Over non-negative numbers the exercise rules keep every value non-negative. */
  lemma {:induction false} MeaningNonNegative(e: Expr)
    requires Admissible(e) && LeavesNonNegative(e)
    ensures Meaning(e) >= 0.0
  {
    match e
    case Leaf(_) =>
    case Node(op, l, r) =>
      MeaningNonNegative(l);
      MeaningNonNegative(r);
      if op == Divide {
        QuotientNonNegative(Meaning(l), Meaning(r));
      }
  }

  lemma QuotientNonNegative(u: real, v: real)
    requires u >= 0.0 && v >= 0.0 && v != 0.0
    ensures u / v >= 0.0
  {
    assert (u / v) * v == u;
  }

  lemma {:induction false} DrawableLeavesNonNegative(r: int, e: Expr)
    requires LeavesDrawable(r, e)
    ensures LeavesNonNegative(e)
  {
    match e
    case Leaf(v) =>
      BelowBound(v.num, v.den, v.num + 1);
    case Node(_, l, rr) =>
      DrawableLeavesNonNegative(r, l);
      DrawableLeavesNonNegative(r, rr);
  }

  /**
   * A generated expression never evaluates to a negative value, so the
   * `val < 0` test of `generate` never rejects one.
   */
  lemma GeneratedNonNegative(r: int, maxOps: int, c: ExprChoice)
    requires ExprChoiceFits(r, maxOps, c)
    requires RandomExpr(r, maxOps, c).Success?
    requires Eval(RandomExpr(r, maxOps, c).value).Success?
    ensures !Less(Eval(RandomExpr(r, maxOps, c).value).value, Zero)
  {
    var e := RandomExpr(r, maxOps, c).value;
    EvalMeaning(e);
    DrawableLeavesNonNegative(r, e);
    MeaningNonNegative(e);
    LessIsValueOrder(Eval(e).value, Zero);
  }

  // ---------------------------------------------------------------------
  // expr_to_str
  // ---------------------------------------------------------------------

  /** `expr_to_str`: numbers as answers are written, composite operands in parentheses. */
  function Render(e: Expr): string {
    match e
    case Leaf(v) => FormatFraction(v)
    case Node(op, left, right) =>
      var ls := Render(left);
      var rs := Render(right);
      var ls' := if left.Node? then "(" + ls + ")" else ls;
      var rs' := if right.Node? then "(" + rs + ")" else rs;
      ls' + " " + [Glyph(op)] + " " + rs'
  }

  /** How many pairs of parentheses `expr_to_str` writes: one per operator below the top one. */
  function ParenPairs(e: Expr): nat {
    if e.Leaf? then 0 else OpCount(e) - 1
  }

  /** A formatted number contains no space and no parenthesis. */
  lemma FormatHasNoLayout(f: Fraction)
    ensures multiset(FormatFraction(f))[' '] == 0
    ensures multiset(FormatFraction(f))['('] == 0
    ensures multiset(FormatFraction(f))[')'] == 0
  {
    FormatFractionChars(f);
    AnswerHasNoLayout(FormatFraction(f));
  }

  lemma AnswerHasNoLayout(s: string)
    requires forall c :: c in s ==> IsAnswerChar(c)
    ensures multiset(s)[' '] == 0 && multiset(s)['('] == 0 && multiset(s)[')'] == 0
  {
    assert ' ' !in s && '(' !in s && ')' !in s;
  }

  /** Character counts of `a op b` as `expr_to_str` joins the operand texts. */
  lemma JoinCounts(a: string, g: char, b: string)
    requires g != ' ' && g != '(' && g != ')'
    ensures var s := a + " " + [g] + " " + b;
      && multiset(s)[' '] == multiset(a)[' '] + multiset(b)[' '] + 2
      && multiset(s)['('] == multiset(a)['('] + multiset(b)['(']
      && multiset(s)[')'] == multiset(a)[')'] + multiset(b)[')']
  {
    JoinedMultiset(a, g, b);
  }

  /** Character counts of an operand wrapped in parentheses. */
  lemma WrapCounts(s: string)
    ensures multiset("(" + s + ")")[' '] == multiset(s)[' ']
    ensures multiset("(" + s + ")")['('] == multiset(s)['('] + 1
    ensures multiset("(" + s + ")")[')'] == multiset(s)[')'] + 1
  {
    assert multiset("(" + s + ")") == multiset{'('} + multiset(s) + multiset{')'};
  }

  /** The text of a node from the texts of its operands. */
  lemma RenderNode(op: Op, left: Expr, right: Expr)
    ensures Render(Node(op, left, right))
         == Operand(left) + " " + [Glyph(op)] + " " + Operand(right)
  {
  }

  lemma NodeLayout(op: Op, left: Expr, right: Expr)
    ensures var s, a, b := Render(Node(op, left, right)), Operand(left), Operand(right);
      && multiset(s)[' '] == multiset(a)[' '] + multiset(b)[' '] + 2
      && multiset(s)['('] == multiset(a)['('] + multiset(b)['(']
      && multiset(s)[')'] == multiset(a)[')'] + multiset(b)[')']
  {
    RenderNode(op, left, right);
    JoinCounts(Operand(left), Glyph(op), Operand(right));
  }

  /** An operand as `expr_to_str` writes it inside a larger expression. */
  function Operand(e: Expr): string {
    if e.Node? then "(" + Render(e) + ")" else Render(e)
  }

  /** Character counts of an operand. */
  lemma {:induction false} OperandLayout(e: Expr)
    ensures multiset(Operand(e))[' '] == 2 * OpCount(e)
    ensures multiset(Operand(e))['('] == OpCount(e)
    ensures multiset(Operand(e))[')'] == OpCount(e)
    decreases e, 1
  {
    RenderLayout(e);
    if e.Node? {
      WrapCounts(Render(e));
    }
  }

  /**
   * The layout of `expr_to_str`: two spaces around each operator, and as
   * many opening as closing parentheses, one pair per composite operand.
   */
  lemma {:induction false} RenderLayout(e: Expr)
    ensures multiset(Render(e))[' '] == 2 * OpCount(e)
    ensures multiset(Render(e))['('] == ParenPairs(e)
    ensures multiset(Render(e))[')'] == ParenPairs(e)
    decreases e, 0
  {
    if e.Leaf? {
      FormatHasNoLayout(e.value);
    } else {
      OperandLayout(e.left);
      OperandLayout(e.right);
      NodeLayout(e.op, e.left, e.right);
      NodeCounts(e);
    }
  }

  lemma NodeCounts(e: Expr)
    requires e.Node?
    ensures OpCount(e) == 1 + OpCount(e.left) + OpCount(e.right)
    ensures ParenPairs(e) == OpCount(e.left) + OpCount(e.right)
  {
  }

  // Reading an exercise back: an inverse of `expr_to_str`, which shows that
  // the text of an exercise determines its expression tree. The reader is a
  // proof device, so it is ghost.

  /** The characters that write an operator. */
  ghost predicate IsGlyph(c: char) {
    c == '+' || c == '-' || c == '×' || c == '÷'
  }

  /** The operator a glyph writes. */
  ghost function GlyphOp(c: char): (op: Op)
    requires IsGlyph(c)
    ensures Glyph(op) == c
  {
    if c == '+' then Plus else if c == '-' then Minus else if c == '×' then Times else Divide
  }

  /** The length of the longest prefix of `s` made of answer characters. */
  ghost function NumberLength(s: string): (n: nat)
    ensures n <= |s|
    ensures forall k :: 0 <= k < n ==> IsAnswerChar(s[k])
    ensures n < |s| ==> !IsAnswerChar(s[n])
  {
    if |s| == 0 || !IsAnswerChar(s[0]) then 0 else 1 + NumberLength(s[1..])
  }

  /** Reads one operand at the front of `s`: a number, or an expression in parentheses. */
  ghost function ReadOperand(s: string): (x: Option<(Expr, string)>)
    ensures x.Some? ==> |x.value.1| < |s|
    decreases |s|, 0
  {
    if |s| > 0 && s[0] == '(' then
      match ReadExpr(s[1..])
      case Some((e, rest)) =>
        if |rest| > 0 && rest[0] == ')' then Some((e, rest[1..])) else None
      case None => None
    else
      var n := NumberLength(s);
      if n == 0 then None
      else
        match ParseFraction(s[..n])
        case Success(v) => Some((Leaf(v), s[n..]))
        case Failure(_) => None
  }

  /** Reads an operand, followed by ` op ` and a second operand if they are there. */
  ghost function ReadExpr(s: string): (x: Option<(Expr, string)>)
    ensures x.Some? ==> |x.value.1| < |s|
    decreases |s|, 1
  {
    match ReadOperand(s)
    case None => None
    case Some((left, rest)) =>
      if |rest| >= 3 && rest[0] == ' ' && IsGlyph(rest[1]) && rest[2] == ' ' then
        match ReadOperand(rest[3..])
        case Some((right, rest')) => Some((Node(GlyphOp(rest[1]), left, right), rest'))
        case None => None
      else Some((left, rest))
  }

  /** Reads a whole exercise text. */
  ghost function ReadExercise(s: string): Option<Expr> {
    match ReadExpr(s)
    case Some((e, rest)) => if rest == "" then Some(e) else None
    case None => None
  }

  /** Every number of the expression reads back from its formatted text. */
  ghost predicate LeavesReadable(e: Expr) {
    match e
    case Leaf(v) => v.num >= 0 || v.den == 1 || Abs(v.num) <= v.den
    case Node(_, l, r) => LeavesReadable(l) && LeavesReadable(r)
  }

  /** What may follow an operand in a rendered exercise. */
  predicate EndsOperand(t: string) {
    t == "" || t[0] == ' ' || t[0] == ')'
  }

  lemma {:induction false} NumberLengthOf(a: string, t: string)
    requires forall c :: c in a ==> IsAnswerChar(c)
    requires EndsOperand(t)
    ensures NumberLength(a + t) == |a|
    decreases |a|
  {
    if |a| > 0 {
      assert a[0] in a;
      assert (a + t)[1..] == a[1..] + t;
      assert forall c :: c in a[1..] ==> c in a;
      NumberLengthOf(a[1..], t);
    } else {
      assert a + t == t;
    }
  }

  lemma ReadLeaf(v: Fraction, t: string)
    requires v.num >= 0 || v.den == 1 || Abs(v.num) <= v.den
    requires EndsOperand(t)
    ensures ReadOperand(FormatFraction(v) + t) == Some((Leaf(v), t))
  {
    var a := FormatFraction(v);
    var s := a + t;
    FormatFractionChars(v);
    NumberLengthOf(a, t);
    assert s[0] == a[0] && a[0] in a;
    assert s[..|a|] == a && s[|a|..] == t;
    FormatThenParse(v);
  }

  lemma {:induction false} ReadOperandOf(e: Expr, t: string)
    requires LeavesReadable(e) && EndsOperand(t)
    ensures ReadOperand(Operand(e) + t) == Some((e, t))
    decreases e, 1
  {
    if e.Leaf? {
      ReadLeaf(e.value, t);
    } else {
      ReadExprOf(e, ")" + t);
      ReadParenthesized(Render(e), e, t);
      assert Operand(e) == "(" + Render(e) + ")";
    }
  }

  /** An expression in parentheses is read as one operand. */
  lemma ReadParenthesized(inner: string, e: Expr, t: string)
    requires ReadExpr(inner + (")" + t)) == Some((e, ")" + t))
    ensures ReadOperand("(" + inner + ")" + t) == Some((e, t))
  {
    var s := "(" + inner + ")" + t;
    var rest := ")" + t;
    assert s == ['('] + (inner + rest);
    assert s[0] == '(' && s[1..] == inner + rest;
    assert rest[0] == ')' && rest[1..] == t;
  }

  lemma {:induction false} ReadExprOf(e: Expr, t: string)
    requires LeavesReadable(e)
    requires t == "" || t[0] == ')'
    ensures ReadExpr(Render(e) + t) == Some((e, t))
    decreases e, 0
  {
    if e.Leaf? {
      ReadLeaf(e.value, t);
      ReadSingle(FormatFraction(e.value) + t, e, t);
    } else {
      var op, l, r := e.op, e.left, e.right;
      var a, b := Operand(l), Operand(r);
      RenderNode(op, l, r);
      var rest := OperatorSlices(a, Glyph(op), b, t);
      ReadOperandOf(l, rest);
      ReadOperandOf(r, t);
      ReadOperator(op, l, r, a, rest, t);
    }
  }

  /** An operand not followed by an operator is read as the whole expression. */
  lemma ReadSingle(s: string, e: Expr, t: string)
    requires ReadOperand(s) == Some((e, t))
    requires t == "" || t[0] == ')'
    ensures ReadExpr(s) == Some((e, t))
  {
  }

  /** The text after the left operand of a node: ` op ` and then the right operand. */
  lemma OperatorSlices(a: string, g: char, b: string, t: string) returns (rest: string)
    ensures a + rest == (a + " " + [g] + " " + b) + t
    ensures |rest| >= 3 && rest[0] == ' ' && rest[1] == g && rest[2] == ' ' && rest[3..] == b + t
  {
    rest := [' ', g, ' '] + (b + t);
    assert a + rest == (a + " " + [g] + " " + b) + t;
  }

  /** An operand, then ` op `, then a second operand. */
  lemma ReadOperator(op: Op, l: Expr, r: Expr, a: string, rest: string, t: string)
    requires |rest| >= 3 && rest[0] == ' ' && rest[1] == Glyph(op) && rest[2] == ' '
    requires ReadOperand(a + rest) == Some((l, rest))
    requires ReadOperand(rest[3..]) == Some((r, t))
    ensures ReadExpr(a + rest) == Some((Node(op, l, r), t))
  {
    GlyphRead(op);
  }

  /** Reading an operator's glyph gives the operator back. */
  lemma GlyphRead(op: Op)
    ensures IsGlyph(Glyph(op)) && GlyphOp(Glyph(op)) == op
  {
    GlyphInjective(GlyphOp(Glyph(op)), op);
  }

  /** `expr_to_str` loses nothing: the text of an exercise reads back as its expression. */
  lemma ReadRendered(e: Expr)
    requires LeavesReadable(e)
    ensures ReadExercise(Render(e)) == Some(e)
  {
    ReadExprOf(e, "");
    assert Render(e) + "" == Render(e);
  }

  /** Expressions `random_expr` builds read back from their text. */
  lemma {:induction false} DrawableReadable(r: int, e: Expr)
    requires LeavesDrawable(r, e)
    ensures LeavesReadable(e)
  {
    match e
    case Leaf(_) =>
    case Node(_, left, right) =>
      DrawableReadable(r, left);
      DrawableReadable(r, right);
  }

  /**
   * The deduplication key of an exercise: `normalize_expr(expr_to_str(e))`,
   * the characters of its text without spaces, sorted.
   */
  function Key(e: Expr): string {
    NormalizeExpr(Render(e))
  }

  /** Swapping the operands of the top operator leaves the key unchanged. */
  lemma SwapKeepsKey(op: Op, l: Expr, r: Expr)
    ensures Key(Node(op, l, r)) == Key(Node(op, r, l))
  {
    SwapKeepsCharacters(op, l, r);
    NormalizeReorder(Render(Node(op, l, r)), Render(Node(op, r, l)));
  }

  lemma SwapKeepsCharacters(op: Op, l: Expr, r: Expr)
    ensures multiset(Render(Node(op, l, r))) == multiset(Render(Node(op, r, l)))
  {
    RenderNode(op, l, r);
    RenderNode(op, r, l);
    SwapJoin(Operand(l), Glyph(op), Operand(r));
  }

  lemma SwapJoin(a: string, g: char, b: string)
    ensures multiset(a + " " + [g] + " " + b) == multiset(b + " " + [g] + " " + a)
  {
    JoinedMultiset(a, g, b);
    JoinedMultiset(b, g, a);
  }

  lemma JoinedMultiset(a: string, g: char, b: string)
    ensures multiset(a + " " + [g] + " " + b) == multiset(a) + multiset{' ', g, ' '} + multiset(b)
  {
    var m := [' ', g, ' '];
    assert a + " " + [g] + " " + b == a + m + b;
    assert multiset(m) == multiset{' ', g, ' '};
  }

  /**
   * The key identifies more than commutativity: `2 - 1` and `1 - 2` share
   * one, although only the first obeys the exercise rules.
   */
  lemma SwappedDifferenceSharesKey()
    ensures Key(Node(Minus, Leaf(FromInt(2)), Leaf(FromInt(1))))
         == Key(Node(Minus, Leaf(FromInt(1)), Leaf(FromInt(2))))
    ensures Eval(Node(Minus, Leaf(FromInt(2)), Leaf(FromInt(1)))).Success?
    ensures Eval(Node(Minus, Leaf(FromInt(1)), Leaf(FromInt(2)))) == Failure(NegativeDifference)
  {
    SwapKeepsKey(Minus, Leaf(FromInt(2)), Leaf(FromInt(1)));
  }

  // ---------------------------------------------------------------------
  // generate
  // ---------------------------------------------------------------------

  /** The draws of one attempt of `generate`: `ops = randint(1, 3)` and the expression's draws. */
  datatype Draw = Draw(ops: int, tree: ExprChoice)

  predicate DrawFits(r: int, d: Draw) {
    1 <= d.ops <= 3 && ExprChoiceFits(r, d.ops, d.tree)
  }

  /** One attempt: the expression and its value, or the reason it raised. */
  function Trial(r: int, d: Draw): (t: Result<(Expr, Fraction), Error>)
    requires DrawFits(r, d)
    ensures t.Success? ==> Eval(t.value.0) == Success(t.value.1)
    ensures t.Success? ==> 1 <= OpCount(t.value.0) <= 3
  {
    var e :- RandomExpr(r, d.ops, d.tree);
    var v :- Eval(e);
    Success((e, v))
  }

  /**
   * What every exercise `generate` accepts satisfies: one to three
   * operators in the shape `random_expr` builds, a value that is the exact
   * value of the expression and not negative, and a text that reads back as
   * the expression.
   */
  lemma TrialFacts(r: int, d: Draw)
    requires DrawFits(r, d) && Trial(r, d).Success?
    ensures var (e, v) := Trial(r, d).value;
      && 1 <= OpCount(e) <= 3 && WellShaped(e)
      && Admissible(e) && Value(v) == Meaning(e) && Meaning(e) >= 0.0
      && ReadExercise(Render(e)) == Some(e)
  {
    var e := RandomExpr(r, d.ops, d.tree).value;
    EvalMeaning(e);
    DrawableLeavesNonNegative(r, e);
    MeaningNonNegative(e);
    DrawableReadable(r, e);
    ReadRendered(e);
  }

  /** Texts that differ before the ` =` differ after it too. */
  lemma QuestionsDiffer(a: string, b: string)
    requires a != b
    ensures a + " =" != b + " ="
  {
    if |a| == |b| {
      assert (a + " =")[..|a|] == a && (b + " =")[..|b|] == b;
    }
  }

  /** Exercises with pairwise different keys have pairwise different questions. */
  lemma DistinctQuestions(questions: seq<string>, answers: seq<string>,
                          exprs: seq<Expr>, values: seq<Fraction>)
    requires |questions| == |answers| == |exprs| == |values|
    requires Written(questions, answers, exprs, values) && DistinctKeys(exprs)
    ensures forall i, j :: 0 <= i < j < |questions| ==> questions[i] != questions[j]
  {
    forall i, j | 0 <= i < j < |questions|
      ensures questions[i] != questions[j]
    {
      QuestionsDiffer(Render(exprs[i]), Render(exprs[j]));
    }
  }

  /**
   * Why attempt `j` produced no exercise: it raised, its value was negative,
   * or its key was already taken by an exercise accepted earlier.
   */
  ghost predicate Rejected(r: int, d: Draw, exprs: seq<Expr>, picks: seq<int>, j: int)
    requires DrawFits(r, d) && |picks| <= |exprs|
  {
    var t := Trial(r, d);
    || t.Failure?
    || Less(t.value.1, Zero)
    || exists i :: 0 <= i < |picks| && picks[i] < j && Key(exprs[i]) == Key(t.value.0)
  }

  /** Exercise `i` came from attempt `picks[i]`, and the attempts come in order. */
  ghost predicate Picked(draws: seq<Draw>, tries: int, picks: seq<int>) {
    && 0 <= tries <= |draws|
    && (forall i :: 0 <= i < |picks| ==> 0 <= picks[i] < tries)
    && (forall i, j :: 0 <= i < j < |picks| ==> picks[i] < picks[j])
  }

  /** Exercise `i` is the expression and value of its attempt, written as `generate` writes them. */
  ghost predicate Produced(r: int, draws: seq<Draw>, questions: seq<string>, answers: seq<string>,
                           exprs: seq<Expr>, values: seq<Fraction>, picks: seq<int>)
  {
    && (forall d :: d in draws ==> DrawFits(r, d))
    && |questions| == |answers| == |exprs| == |values| == |picks|
    && FromTrials(r, draws, exprs, values, picks)
    && Written(questions, answers, exprs, values)
    && AnswersRead(answers, values)
  }

  /** Exercise `i` is the successful, non-negative outcome of attempt `picks[i]`. */
  ghost predicate FromTrials(r: int, draws: seq<Draw>, exprs: seq<Expr>, values: seq<Fraction>, picks: seq<int>)
    requires forall d :: d in draws ==> DrawFits(r, d)
    requires |exprs| == |values| == |picks|
  {
    && (forall i :: 0 <= i < |picks| ==> 0 <= picks[i] < |draws|)
    && (forall i :: 0 <= i < |picks| ==>
          Trial(r, draws[picks[i]]) == Success((exprs[i], values[i])) && !Less(values[i], Zero))
  }

  /** The question is the rendered expression followed by ` =`; the answer is the formatted value. */
  ghost predicate Written(questions: seq<string>, answers: seq<string>, exprs: seq<Expr>, values: seq<Fraction>)
    requires |questions| == |answers| == |exprs| == |values|
  {
    forall i :: 0 <= i < |questions| ==>
      questions[i] == Render(exprs[i]) + " =" && answers[i] == FormatFraction(values[i])
  }

  /** Every answer reads back as its value. */
  ghost predicate AnswersRead(answers: seq<string>, values: seq<Fraction>)
    requires |answers| == |values|
  {
    forall i :: 0 <= i < |answers| ==> ParseFraction(answers[i]) == Success(values[i])
  }

  /** No two exercises share a key. */
  ghost predicate DistinctKeys(exprs: seq<Expr>) {
    forall i, j :: 0 <= i < j < |exprs| ==> Key(exprs[i]) != Key(exprs[j])
  }

  /** Every one of the first `tries` attempts that was not picked was rejected. */
  ghost predicate RestRejected(r: int, draws: seq<Draw>, tries: int, exprs: seq<Expr>, picks: seq<int>)
  {
    && 0 <= tries <= |draws| && |picks| <= |exprs|
    && (forall d :: d in draws ==> DrawFits(r, d))
    && (forall j :: 0 <= j < tries && j !in picks ==> Rejected(r, draws[j], exprs, picks, j))
  }

  /**
   * What the first `tries` attempts of `generate` have produced: exercise
   * `i` came from attempt `picks[i]`, attempts come in order, the keys are
   * pairwise distinct, and every attempt not picked was rejected.
   */
  ghost predicate Collected(r: int, draws: seq<Draw>, tries: int,
                            questions: seq<string>, answers: seq<string>,
                            exprs: seq<Expr>, values: seq<Fraction>, picks: seq<int>)
  {
    && Picked(draws, tries, picks)
    && Produced(r, draws, questions, answers, exprs, values, picks)
    && DistinctKeys(exprs)
    && RestRejected(r, draws, tries, exprs, picks)
  }

  /** Rejecting attempt `tries` keeps `Collected`. */
  lemma RejectStep(r: int, draws: seq<Draw>, tries: int,
                   questions: seq<string>, answers: seq<string>,
                   exprs: seq<Expr>, values: seq<Fraction>, picks: seq<int>)
    requires Collected(r, draws, tries, questions, answers, exprs, values, picks)
    requires tries < |draws| && Rejected(r, draws[tries], exprs, picks, tries)
    ensures Collected(r, draws, tries + 1, questions, answers, exprs, values, picks)
  {
    assert RestRejected(r, draws, tries + 1, exprs, picks);
  }

  /** Accepting attempt `tries` with a fresh key keeps `Collected`. */
  lemma AcceptStep(r: int, draws: seq<Draw>, tries: int,
                   questions: seq<string>, answers: seq<string>,
                   exprs: seq<Expr>, values: seq<Fraction>, picks: seq<int>,
                   e: Expr, v: Fraction)
    requires Collected(r, draws, tries, questions, answers, exprs, values, picks)
    requires tries < |draws| && Trial(r, draws[tries]) == Success((e, v)) && !Less(v, Zero)
    requires forall i :: 0 <= i < |exprs| ==> Key(exprs[i]) != Key(e)
    ensures Collected(r, draws, tries + 1,
                      questions + [Render(e) + " ="], answers + [FormatFraction(v)],
                      exprs + [e], values + [v], picks + [tries])
  {
    AcceptPicked(draws, tries, picks);
    AcceptProduced(r, draws, tries, questions, answers, exprs, values, picks, e, v);
    AcceptDistinct(exprs, e);
    AcceptRejected(r, draws, tries, exprs, picks, e);
  }

  lemma AcceptPicked(draws: seq<Draw>, tries: int, picks: seq<int>)
    requires Picked(draws, tries, picks) && tries < |draws|
    ensures Picked(draws, tries + 1, picks + [tries])
  {
  }

  lemma AcceptProduced(r: int, draws: seq<Draw>, tries: int,
                       questions: seq<string>, answers: seq<string>,
                       exprs: seq<Expr>, values: seq<Fraction>, picks: seq<int>,
                       e: Expr, v: Fraction)
    requires Produced(r, draws, questions, answers, exprs, values, picks)
    requires 0 <= tries < |draws| && Trial(r, draws[tries]) == Success((e, v)) && !Less(v, Zero)
    ensures Produced(r, draws, questions + [Render(e) + " ="], answers + [FormatFraction(v)],
                     exprs + [e], values + [v], picks + [tries])
  {
    AcceptTrial(r, draws, tries, exprs, values, picks, e, v);
    AcceptWritten(questions, answers, exprs, values, e, v);
    LessIsValueOrder(v, Zero);
    FormatThenParse(v);
    AcceptRead(answers, values, v);
  }

  lemma AcceptTrial(r: int, draws: seq<Draw>, tries: int,
                    exprs: seq<Expr>, values: seq<Fraction>, picks: seq<int>, e: Expr, v: Fraction)
    requires forall d :: d in draws ==> DrawFits(r, d)
    requires |exprs| == |values| == |picks| && FromTrials(r, draws, exprs, values, picks)
    requires 0 <= tries < |draws| && Trial(r, draws[tries]) == Success((e, v)) && !Less(v, Zero)
    ensures FromTrials(r, draws, exprs + [e], values + [v], picks + [tries])
  {
    var exprs', values', picks' := exprs + [e], values + [v], picks + [tries];
    forall i | 0 <= i < |picks'|
      ensures 0 <= picks'[i] < |draws|
      ensures Trial(r, draws[picks'[i]]) == Success((exprs'[i], values'[i])) && !Less(values'[i], Zero)
    {
      if i < |picks| {
        assert picks'[i] == picks[i] && exprs'[i] == exprs[i] && values'[i] == values[i];
      }
    }
  }

  lemma AcceptWritten(questions: seq<string>, answers: seq<string>, exprs: seq<Expr>, values: seq<Fraction>,
                      e: Expr, v: Fraction)
    requires |questions| == |answers| == |exprs| == |values| && Written(questions, answers, exprs, values)
    ensures Written(questions + [Render(e) + " ="], answers + [FormatFraction(v)], exprs + [e], values + [v])
  {
  }

  lemma AcceptRead(answers: seq<string>, values: seq<Fraction>, v: Fraction)
    requires |answers| == |values| && AnswersRead(answers, values)
    requires ParseFraction(FormatFraction(v)) == Success(v)
    ensures AnswersRead(answers + [FormatFraction(v)], values + [v])
  {
  }

  lemma AcceptDistinct(exprs: seq<Expr>, e: Expr)
    requires DistinctKeys(exprs)
    requires forall i :: 0 <= i < |exprs| ==> Key(exprs[i]) != Key(e)
    ensures DistinctKeys(exprs + [e])
  {
  }

  lemma AcceptRejected(r: int, draws: seq<Draw>, tries: int, exprs: seq<Expr>, picks: seq<int>, e: Expr)
    requires RestRejected(r, draws, tries, exprs, picks) && tries < |draws|
    ensures RestRejected(r, draws, tries + 1, exprs + [e], picks + [tries])
  {
    var exprs', picks' := exprs + [e], picks + [tries];
    forall j | 0 <= j < tries + 1 && j !in picks'
      ensures Rejected(r, draws[j], exprs', picks', j)
    {
      assert j !in picks;
      assert draws[j] in draws;
      RejectedExtends(r, draws[j], exprs, picks, j, e, tries);
    }
  }

  /** A rejection stays justified when a later exercise is appended. */
  lemma RejectedExtends(r: int, d: Draw, exprs: seq<Expr>, picks: seq<int>, j: int, e: Expr, p: int)
    requires DrawFits(r, d) && |picks| <= |exprs| && Rejected(r, d, exprs, picks, j)
    ensures Rejected(r, d, exprs + [e], picks + [p], j)
  {
    var t := Trial(r, d);
    if t.Success? && !Less(t.value.1, Zero) {
      var i :| 0 <= i < |picks| && picks[i] < j && Key(exprs[i]) == Key(t.value.0);
      assert (picks + [p])[i] == picks[i] && (exprs + [e])[i] == exprs[i];
    }
  }

  /** The keys of the exercises collected so far: `expr_set`. */
  ghost function KeySet(exprs: seq<Expr>): set<string> {
    if |exprs| == 0 then {} else KeySet(exprs[..|exprs| - 1]) + {Key(exprs[|exprs| - 1])}
  }

  lemma KeySetGrows(exprs: seq<Expr>, e: Expr)
    ensures KeySet(exprs + [e]) == KeySet(exprs) + {Key(e)}
  {
    assert (exprs + [e])[..|exprs|] == exprs;
  }

  /** The key of every collected exercise is in the set. */
  lemma {:induction false} InKeySet(exprs: seq<Expr>, i: int)
    requires 0 <= i < |exprs|
    ensures Key(exprs[i]) in KeySet(exprs)
    decreases |exprs|
  {
    if i < |exprs| - 1 {
      InKeySet(exprs[..|exprs| - 1], i);
    }
  }

  /** Every key in the set belongs to a collected exercise. */
  lemma {:induction false} KeySetWitness(exprs: seq<Expr>, k: string) returns (i: int)
    requires k in KeySet(exprs)
    ensures 0 <= i < |exprs| && Key(exprs[i]) == k
    decreases |exprs|
  {
    var init := exprs[..|exprs| - 1];
    if k in KeySet(init) {
      i := KeySetWitness(init, k);
    } else {
      i := |exprs| - 1;
    }
  }

  /** An attempt that raised, gave a negative value or repeated a key is rejected. */
  lemma NotAcceptedIsRejected(r: int, d: Draw, exprs: seq<Expr>, picks: seq<int>, j: int)
    requires DrawFits(r, d) && |picks| == |exprs|
    requires forall i :: 0 <= i < |picks| ==> picks[i] < j
    requires var t := Trial(r, d);
      t.Failure? || Less(t.value.1, Zero) || Key(t.value.0) in KeySet(exprs)
    ensures Rejected(r, d, exprs, picks, j)
  {
    var t := Trial(r, d);
    if t.Success? && !Less(t.value.1, Zero) {
      var i := KeySetWitness(exprs, Key(t.value.0));
      assert picks[i] < j;
    }
  }

  /** An attempt that `Attempt` did not accept keeps `Collected`. */
  lemma RejectAttempt(r: int, draws: seq<Draw>, tries: int,
                      questions: seq<string>, answers: seq<string>,
                      exprs: seq<Expr>, values: seq<Fraction>, picks: seq<int>)
    requires Collected(r, draws, tries, questions, answers, exprs, values, picks)
    requires tries < |draws|
    requires var t := Trial(r, draws[tries]);
      !(t.Success? && !Less(t.value.1, Zero) && Key(t.value.0) !in KeySet(exprs))
    ensures Collected(r, draws, tries + 1, questions, answers, exprs, values, picks)
  {
    assert draws[tries] in draws;
    NotAcceptedIsRejected(r, draws[tries], exprs, picks, tries);
    RejectStep(r, draws, tries, questions, answers, exprs, values, picks);
  }

  /** An attempt that `Attempt` accepted extends `Collected` and the key set. */
  lemma AcceptAttempt(r: int, draws: seq<Draw>, tries: int,
                      questions: seq<string>, answers: seq<string>,
                      exprs: seq<Expr>, values: seq<Fraction>, picks: seq<int>,
                      e: Expr, v: Fraction)
    requires Collected(r, draws, tries, questions, answers, exprs, values, picks)
    requires tries < |draws| && Trial(r, draws[tries]) == Success((e, v)) && !Less(v, Zero)
    requires Key(e) !in KeySet(exprs)
    ensures Collected(r, draws, tries + 1,
                      questions + [Render(e) + " ="], answers + [FormatFraction(v)],
                      exprs + [e], values + [v], picks + [tries])
    ensures KeySet(exprs + [e]) == KeySet(exprs) + {Key(e)}
  {
    forall i | 0 <= i < |exprs|
      ensures Key(exprs[i]) != Key(e)
    {
      InKeySet(exprs, i);
    }
    AcceptStep(r, draws, tries, questions, answers, exprs, values, picks, e, v);
    KeySetGrows(exprs, e);
  }

  /**
   * The body of the `generate` loop for one attempt: draw and evaluate an
   * expression, drop it when that raised, when its value is negative or when
   * its key is in `exprSet`, and otherwise hand back its text and key.
   */
  method Attempt(r: int, d: Draw, exprSet: set<string>)
      returns (accepted: bool, expr: Expr, val: Fraction, exprStr: string, norm: string)
    requires DrawFits(r, d)
    ensures var t := Trial(r, d);
      accepted <==> t.Success? && !Less(t.value.1, Zero) && Key(t.value.0) !in exprSet
    ensures accepted ==> Trial(r, d) == Success((expr, val))
    ensures accepted ==> exprStr == Render(expr) && norm == Key(expr)
  {
    accepted, expr, val, exprStr, norm := false, Leaf(Zero), Zero, "", "";
    var made := RandomExpr(r, d.ops, d.tree);
    if made.Failure? {
      return;
    }
    expr := made.value;
    var evaluated := Eval(expr);
    if evaluated.Failure? {
      return;
    }
    val := evaluated.value;
    if Less(val, Zero) {
      return;
    }
    exprStr := Render(expr);
    norm := NormalizeExpr(exprStr);
    if norm in exprSet {
      return;
    }
    accepted := true;
  }

  /**
   * The loop of `generate(n, r)` without the file writes: at most `20 * n`
   * attempts, attempt `j` using `draws[j]`, collecting up to `n` exercises
   * with distinct keys.  The ghost results name, for each exercise, its
   * expression, its value and the attempt that produced it.
   */
  method Generate(n: int, r: int, draws: seq<Draw>)
      returns (questions: seq<string>, answers: seq<string>,
               ghost exprs: seq<Expr>, ghost values: seq<Fraction>,
               ghost picks: seq<int>, tries: int)
    requires |draws| >= 20 * n
    requires forall d :: d in draws ==> DrawFits(r, d)
    ensures n <= 0 ==> tries == 0 && questions == []
    ensures n > 0 ==> tries <= 20 * n && |questions| <= n
    ensures |questions| < n ==> tries == 20 * n
    ensures Collected(r, draws, tries, questions, answers, exprs, values, picks)
    ensures forall i, j :: 0 <= i < j < |questions| ==> questions[i] != questions[j]
  {
    questions, answers := [], [];
    exprs, values, picks := [], [], [];
    var exprSet: set<string> := {};
    tries := 0;
    while |questions| < n && tries < n * 20
      invariant n <= 0 ==> tries == 0 && questions == []
      invariant n > 0 ==> tries <= 20 * n && |questions| <= n
      invariant Collected(r, draws, tries, questions, answers, exprs, values, picks)
      invariant exprSet == KeySet(exprs)
      decreases 20 * n - tries
    {
      var attempt := tries;
      tries := tries + 1;
      var d := draws[attempt];
      assert DrawFits(r, d);
      var accepted, expr, val, exprStr, norm := Attempt(r, d, exprSet);
      if !accepted {
        RejectAttempt(r, draws, attempt, questions, answers, exprs, values, picks);
      } else {
        AcceptAttempt(r, draws, attempt, questions, answers, exprs, values, picks, expr, val);
        exprSet := exprSet + {norm};
        questions := questions + [exprStr + " ="];
        answers := answers + [FormatFraction(val)];
        exprs, values, picks := exprs + [expr], values + [val], picks + [attempt];
      }
    }
    DistinctQuestions(questions, answers, exprs, values);
  }
}
