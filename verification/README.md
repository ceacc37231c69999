# Arithmetic exercise generator and grader, modelled in Dafny

The system writes school arithmetic exercises over natural numbers and
proper fractions, and grades a file of answers against the file of correct
answers. This project models its core:

- the fraction helpers and the answer text codec of `src/utils.py`. The
  codec writes an answer as `N`, `N/D` or `I'R/D` (`format_fraction`) and
  reads those forms back (`parse_fraction`). The file also holds the
  deduplication key `normalize_expr`, the test `is_proper_fraction` and the
  four exact operations `fraction_add/sub/mul/div`;
- from `src/generator.py`: random numbers and random expression trees,
  exact evaluation under the exercise rules (no negative difference, only
  proper quotients), rendering as text, and the loop of `generate`, which
  collects up to `n` exercises with distinct keys in at most `20 * n`
  attempts;
- the grading loop of `src/grader.py`: answer `k` is correct exactly when
  both texts parse and denote the same fraction.

Modules:

- `Wrappers`: `Option` and `Result`. Python exceptions become `Failure`
  values.
- `Integers`: gcd, Bezout and divisibility facts.
- `Fractions`: Python's `Fraction` as a numerator/denominator pair in
  lowest terms with a positive denominator (the subset type `Fraction`),
  so `==` on fractions is Python's `==`. The ghost `Value` gives each
  fraction's real value, and the arithmetic is proved exact against it.
- `Text`: the parts of `str` and `int` the code relies on: `strip`,
  one-character `split`, `replace(' ', '')`, `sorted`, `str(int)` and
  `int(str)`.
- `Utils`, `Generator`, `Grader`: the three source files.

Python's `random` calls become explicit choices. `NumberChoice`,
`ExprChoice` and `Draw` hold the value every `randint` or `choice` call
returns. The predicates `NumberChoiceFits`, `ExprChoiceFits` and
`DrawFits` state the range each call draws from. `Generate` takes one
`Draw` per attempt.

Where the behaviour of the code is easy to misread from its names and
comments, the model follows the code:

- The docstring of `normalize_expr` names commutativity and parentheses
  as what deduplication should see through. It also says that the code
  only sorts the characters of the text and that an expression tree could
  handle the harder cases, and a TODO repeats that idea
  (src/utils.py:17-21). The code deletes the spaces and sorts the
  remaining characters (src/utils.py:22), and `Utils.NormalizeExpr` does
  the same. So two exercises share a key whenever they are written with
  the same characters, even when their values differ
  (`Generator.SwappedDifferenceSharesKey`).
- The comment at src/generator.py:91 asks for proper fractions as the
  results of division. `eval_expr` tests `numerator >= denominator`
  (src/generator.py:59), so a negative quotient passes. Generated operands
  are never negative, so this never matters during generation.
- The docstring of `random_number(r)` promises a value in `[0, r)`. For
  `r <= 2` the fraction branch always returns `1/2`, which is outside that
  range when `r <= 0` (`Generator.ProperBelowRange`). For `r < 1` the
  natural branch raises, since `randint(0, r - 1)` has an empty range
  (`Error.EmptyRange`); `generate` catches that and retries.
- `format_fraction` writes a negative mixed number with floor division
  for the whole part and the remainder of the absolute value, so `-7/3`
  becomes `-3'1/3`. That text reads back as `-8/3`.
  `Utils.NegativeMixedRoundTrip` and `Utils.RoundTripExactly` say exactly
  when the round trip fails. No generated answer is negative
  (`Generator.GeneratedNonNegative`), so every answer file the program
  writes reads back exactly (`Grader.SelfGrading`).

## Model

| member | source | states |
|---|---|---|
| Fractions.Make | src/utils.py:36-39 | `Fraction(n, d)` for `d != 0` has the value `n / d` and a denominator no larger than `abs(d)` |
| Fractions.MakeCross | src/utils.py:39 | `Fraction(n, d)` keeps the ratio: `num * d == n * den` |
| Fractions.ValueInjective | src/grader.py:18 | two fractions in lowest terms with equal values are equal, so `==` compares values |
| Fractions.MakeSameValue | src/utils.py:36-39 | `Fraction(n, d) == Fraction(n', d')` exactly when `n * d' == n' * d` |
| Fractions.Add | src/utils.py:50-51 | the sum is exact: its value is the sum of the values |
| Fractions.Sub | src/utils.py:53-54 | the difference is exact |
| Fractions.Mul | src/utils.py:56-57 | the product is exact |
| Fractions.Quot | src/utils.py:59-62 | for a non-zero divisor, the quotient times the divisor is the dividend |
| Fractions.LessIsValueOrder | src/generator.py:50 | `<` on fractions, by cross multiplication, is the order of the values |
| Fractions.ZeroIsUnique | src/utils.py:60 | a fraction equals `Fraction(0)` exactly when its numerator is 0 |
| Fractions.AddCommutes | src/utils.py:50-51 | `a + b == b + a` |
| Fractions.SubUndoesAdd | src/utils.py:50-54 | `(a + b) - b == a` |
| Fractions.MulCommutes | src/utils.py:56-57 | `a * b == b * a` |
| Fractions.QuotUndoesMul | src/utils.py:56-62 | `(a * b) / b == a` for `b != 0` |
| Text.StripBySplits | src/utils.py:32-36 | `strip`, and `int()` before it reads digits, remove only their own whitespace, and only at the two ends |
| Text.StripIdempotent | src/grader.py:10 | stripping twice is stripping once |
| Text.StripKeeps | src/utils.py:32 | stripping keeps the count of every non-whitespace character, `'` and `/` included |
| Text.Split | src/utils.py:34-35 | `split(c)` gives one more part than `c` occurs, and no part contains `c` |
| Text.JoinSplit | src/utils.py:34-35 | joining the parts of a split with the separator gives the text back |
| Text.SplitJoin | src/utils.py:34-35 | splitting parts joined by a separator they do not contain gives the parts back |
| Text.IntStripKeeps | src/utils.py:36 | every character other than that whitespace stays in the text `int()` reads |
| Text.IntRejectsSeparator | src/utils.py:39 | `int()` rejects a trailing U+001C that `strip` removes, and skips a space and a tab |
| Text.ParseIntOfIntToString | src/utils.py:7 | `int(str(i)) == i` for every integer |
| Text.NatToStringOfDigitsValue | src/utils.py:36 | a digit string without leading zeros is the `str` of its value |
| Text.Remove | src/utils.py:22 | `replace(c, '')` deletes every `c` and keeps every other character |
| Text.RemoveAppend | src/utils.py:22 | removing from `s + t` is removing from `s` and then from `t`, so the kept characters stay in order |
| Text.RemoveSingle | src/utils.py:22 | a single character is dropped when it is `c` and kept otherwise |
| Text.Sort | src/utils.py:22 | `sorted` gives an ascending permutation of its input |
| Text.SortedUnique | src/utils.py:22 | a sorted string is determined by its multiset of characters |
| Utils.FormatFractionChars | src/utils.py:2-14 | a formatted fraction is non-empty and uses only digits, `-`, `'` and `/` |
| Utils.FormatShape | src/utils.py:6-14 | no `/` exactly when the denominator is 1, and then the text reads as the numerator; a `'` exactly when the denominator is not 1 and the absolute value of the numerator exceeds the denominator |
| Utils.MixedParts | src/utils.py:8-12 | in `I'R/D`, `D >= 2` and `0 < R < D`, and `I * D + R` is the numerator for a non-negative value |
| Utils.FormatThenParse | src/utils.py:2-14 | `parse_fraction(format_fraction(f)) == f` for every non-negative `f` and every `f` not in negative mixed form |
| Utils.NegativeMixedRoundTrip | src/utils.py:8-12 | a negative mixed number reads back as itself exactly when its denominator is 2 |
| Utils.RoundTripExactly | src/utils.py:28-41 | the round trip succeeds exactly when `f` is not below `-1` with a denominator above 2 |
| Utils.ParseMixed | src/utils.py:33-36 | `I'N/D` written from integers reads as `I + Fraction(N, D)` |
| Utils.ParseSimple | src/utils.py:37-39 | `N/D` written from integers reads as `Fraction(N, D)` |
| Utils.ParseWhole | src/utils.py:40-41 | an integer written with `str` reads as itself |
| Utils.ParseFractionFailures | src/utils.py:32-41 | more than one `'`, a mixed form without exactly one `/` after the `'`, more than one `/`, or a zero denominator in either the `N/D` or the `I'N/D` form raise |
| Utils.ParseIntRejectsMarks | src/utils.py:34-39 | `int()` of a part that still holds a `'` or a `/` fails |
| Utils.NormalizeExpr | src/utils.py:16-22 | the key is sorted and is a permutation of the input without its spaces |
| Utils.NormalizeSameKey | src/utils.py:16-22 | two texts share a key exactly when they hold the same non-space characters |
| Utils.NormalizeIdempotent | src/utils.py:16-22 | the key of a key is itself |
| Utils.NormalizeReorder | src/utils.py:16-22 | reordering the characters of a text keeps its key |
| Utils.ProperMeansBelowOne | src/utils.py:43-48 | `is_proper_fraction(f)` holds exactly when `0 < abs(f) < 1`, never for an integer |
| Utils.FractionDiv | src/utils.py:59-62 | raises exactly when `b == 0`, and otherwise gives the exact quotient |
| Generator.GlyphInjective | src/generator.py:6 | the four operators are written with distinct characters |
| Generator.RandomNumber | src/generator.py:8-21 | fails only for the natural branch with `r < 1`; otherwise the natural branch returns the drawn integer `n` in `[0, r - 1]`; every result is drawable; the fraction branch never gives an integer |
| Generator.RandomNumberOnto | src/generator.py:8-21 | every drawable value comes from some admissible draws, so `Drawable` is exactly the range |
| Generator.ProperDraw | src/generator.py:15-21 | the fraction branch keeps the drawn integer part, and its denominator lies between 2 and the drawn one |
| Generator.DrawableInRange | src/generator.py:8-21 | for `r >= 1` every drawable value lies in `[0, r)` |
| Generator.ProperBelowRange | src/generator.py:15-21 | for `r <= 2` the fraction branch always returns `1/2` |
| Generator.RandomExpr | src/generator.py:23-38 | fails exactly when `r < 1` and a natural number is drawn; a result has exactly `max_ops` operators, a number as right operand of every `-` and `÷`, and drawable numbers |
| Generator.RandomExprOnto | src/generator.py:23-38 | every tree of that shape over drawable numbers comes from some admissible draws |
| Generator.Apply | src/generator.py:47-61 | one evaluation step succeeds exactly when the exercise rules allow it, and then it is exact |
| Generator.CheckedDifference | src/generator.py:49-52 | `l - r` raises exactly when `l < r`, and is otherwise exact |
| Generator.CheckedQuotient | src/generator.py:55-61 | `l ÷ r` raises for a zero divisor or a quotient of at least 1, and is otherwise exact |
| Generator.QuotientFacts | src/generator.py:58-59 | a quotient has `numerator >= denominator` exactly when its value is at least 1 |
| Generator.EvalMeaning | src/generator.py:40-61 | `eval_expr` succeeds exactly on expressions that obey the rules at every operator, and then gives their exact value |
| Generator.MeaningNonNegative | src/generator.py:47-61 | over non-negative numbers the rules keep every value non-negative |
| Generator.GeneratedNonNegative | src/generator.py:92 | a generated expression never evaluates below 0, so the `val < 0` test never fires |
| Generator.RenderLayout | src/generator.py:63-75 | the text has two spaces per operator and one pair of parentheses per operator below the top one |
| Generator.ReadRendered | src/generator.py:63-75 | the text of an expression whose numbers read back determines the expression |
| Generator.DrawableReadable | src/generator.py:8-21 | every number `random_number` returns reads back from its text |
| Generator.SwapKeepsKey | src/generator.py:94-96 | swapping the operands of the top operator keeps the deduplication key |
| Generator.SwappedDifferenceSharesKey | src/generator.py:94-96 | `2 - 1` and `1 - 2` share a key, and only the first obeys the rules |
| Generator.Trial | src/generator.py:88-90 | a successful attempt gives an expression with one to three operators and its value |
| Generator.TrialFacts | src/generator.py:88-92 | an accepted exercise has the generated shape, its exact non-negative value, and a text that reads back as it |
| Generator.QuestionsDiffer | src/generator.py:99 | distinct expression texts give distinct questions after ` =` is appended |
| Generator.RejectStep | src/generator.py:91-97 | a rejected attempt keeps what has been collected |
| Generator.AcceptStep | src/generator.py:96-100 | accepting an attempt with a fresh key keeps what has been collected |
| Generator.KeySetGrows | src/generator.py:98 | `expr_set.add(norm)` adds exactly the new key |
| Generator.InKeySet | src/generator.py:96 | the key of every collected exercise is in `expr_set` |
| Generator.KeySetWitness | src/generator.py:96 | every key in `expr_set` belongs to a collected exercise |
| Generator.NotAcceptedIsRejected | src/generator.py:87-102 | an attempt that raised, had a negative value or repeated a key is rejected |
| Generator.Attempt | src/generator.py:87-97 | one attempt is accepted exactly when it evaluates, is not negative and has a new key; it then returns the expression, its value, its text and its key |
| Generator.Generate | src/generator.py:81-102 | at most `20 * n` attempts and `n` exercises; fewer than `n` only when every attempt was used; exercise `i` is the accepted outcome of its attempt, written as question and answer; keys are pairwise distinct; questions differ; every answer reads back as its value; every attempt not picked was rejected |
| Grader.AnswerLines | src/grader.py:10 | the answer lines are stripped and non-empty, and there are no more of them than lines |
| Grader.AnswerLinesSource | src/grader.py:10 | every non-blank line is kept, stripped and in order, and only blank lines are dropped |
| Grader.AnswerLinesAppend | src/grader.py:10 | reading two runs of lines reads each run in turn |
| Grader.AnswerLinesKeeps | src/grader.py:13 | lines that are already stripped and non-empty are kept as they are |
| Grader.AnswerLinesIdempotent | src/grader.py:13 | reading answer lines twice is reading them once |
| Grader.MatchesEquivalence | src/grader.py:18 | agreement is reflexive on texts that parse, symmetric and transitive |
| Grader.MatchesFormatted | src/grader.py:17-21 | against a written non-negative answer, a text is correct exactly when it parses to the same fraction |
| Grader.MixedMatchesImproper | src/grader.py:17-21 | `I'N/D` and the equal improper fraction `(I*D+N)/D` are graded equal |
| Grader.SelfGrading | src/grader.py:10-21 | the answers `generate` writes read back unchanged, and each grades as correct against itself |
| Grader.Classify | src/grader.py:16-23 | every index `1..min` lands in exactly one of `correct` and `wrong`, each list increases, and an index is correct exactly when its pair agrees |
| Grader.Grade | src/grader.py:4-23 | the same, over the answer lines of both files, with agreement meaning both texts parse to the same fraction |

## Left out

- File reads and writes and the console messages (src/generator.py:104-110, src/grader.py:9-13, src/grader.py:25-28). `Generate` returns the question and answer lists. `Grade` takes the lines of both files and returns the two index lists.
- `Myapp.py` (argument parsing and mode dispatch) and `src/errors.py` (exception classes that nothing raises) are not part of this model.
- The probabilities of `random` (the coins 0.5 and 0.3, uniform `randint`). Only the range of each draw is modelled, so the model makes no claim about how often anything happens.
- `int()` accepts underscores between digits and non-ASCII digits. `Text.ParseInt` accepts an optional sign and ASCII digits only, surrounded by the whitespace `int()` skips: that of `str.isspace` without U+001C to U+001F.
- The `fraction_*` helpers and `is_proper_fraction` also accept `int`, `str` and `float` arguments. The model takes fractions only.
- `eval_expr` falls through and returns `None` for an unknown operator. `Generator.Op` has only the four operators, so that case cannot arise.
- `except Exception` in `generate` and `grade` also catches programming errors. The model has only the exceptions the code raises on its inputs: `Utils.FractionError` and `Generator.Error`.
- Utils.FormatThenParse: does not claim the round trip for negative mixed numbers, because there it fails. `Utils.RoundTripExactly` states the exact condition.
- Generator.ReadExercise: a ghost reader for exercise text that the source does not have. It is the partner of `Render` and shows that the text of an exercise determines its tree.
- Grader.Classify: takes the agreement test as a parameter. `Grader.Grade` passes `Grader.Matches`, which is `parse_fraction(std) == parse_fraction(user)` inside the `try`.
- Grader.Grade: has no `exercise_file` parameter, because the source never reads that file.
- Generator.Generate: takes its random draws as a sequence of at least `20 * n` entries, one per attempt. The expressions, values and attempt numbers it returns exist only for the proof.
