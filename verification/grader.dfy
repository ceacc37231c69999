/**
 * The grading step of `src/grader.py`: both answer files are read as
 * their non-blank stripped lines, and answer `k` of the user counts as
 * correct exactly when both texts parse and denote the same fraction.
 */
module Grader {
  import opened Wrappers
  import opened Fractions
  import opened Text
  import opened Utils

  /** `[line.strip() for line in f if line.strip()]` over the lines of a file. */
  function AnswerLines(lines: seq<string>): (answers: seq<string>)
    ensures |answers| <= |lines|
    ensures forall a :: a in answers ==> |a| > 0 && Strip(a) == a
  {
    if |lines| == 0 then [] else Kept(lines[0]) + AnswerLines(lines[1..])
  }

  /** One line of the comprehension: its stripped text, unless that is empty. */
  function Kept(line: string): (kept: seq<string>)
    ensures |kept| <= 1
    ensures forall a :: a in kept ==> |a| > 0 && Strip(a) == a
  {
    StripIdempotent(line);
    var t := Strip(line);
    if |t| > 0 then [t] else []
  }

  /**
   * `answers` is what the comprehension makes of `lines`: answer `k` is
   * line `p[k]` stripped, the line numbers `p` increase, and every line not
   * in `p` strips to `""`.
   */
  predicate Traces(lines: seq<string>, answers: seq<string>, p: seq<int>) {
    && |p| == |answers|
    && (forall k :: 0 <= k < |p| ==> 0 <= p[k] < |lines| && answers[k] == Strip(lines[p[k]]))
    && Increasing(p)
    && (forall i :: 0 <= i < |lines| && i !in p ==> Strip(lines[i]) == "")
  }

  /** The comprehension keeps every non-blank line, stripped and in order, and drops only the blank ones. */
  lemma {:induction false} AnswerLinesSource(lines: seq<string>) returns (p: seq<int>)
    ensures Traces(lines, AnswerLines(lines), p)
    decreases |lines|
  {
    if |lines| == 0 {
      p := [];
    } else {
      var line, rest := lines[0], lines[1..];
      assert lines == [line] + rest;
      var q := AnswerLinesSource(rest);
      if |Strip(line)| > 0 {
        p := [0] + Shift(q);
        TraceKeep(line, rest, AnswerLines(rest), q);
        assert AnswerLines(lines) == [Strip(line)] + AnswerLines(rest);
      } else {
        p := Shift(q);
        TraceDrop(line, rest, AnswerLines(rest), q);
        assert AnswerLines(lines) == AnswerLines(rest);
      }
    }
  }

  /** Every line number one further on: the numbers of `rest` as numbers of `[line] + rest`. */
  function Shift(q: seq<int>): (s: seq<int>)
    ensures |s| == |q|
    ensures forall k :: 0 <= k < |q| ==> s[k] == q[k] + 1
  {
    seq(|q|, k requires 0 <= k < |q| => q[k] + 1)
  }

  lemma TraceDrop(line: string, rest: seq<string>, answers: seq<string>, q: seq<int>)
    requires Strip(line) == "" && Traces(rest, answers, q)
    ensures Traces([line] + rest, answers, Shift(q))
  {
    DropIndices(line, rest, answers, q);
    ShiftIncreasing(q);
    DropBlanks(line, rest, q);
  }

  lemma DropIndices(line: string, rest: seq<string>, answers: seq<string>, q: seq<int>)
    requires |q| == |answers|
    requires forall k :: 0 <= k < |q| ==> 0 <= q[k] < |rest| && answers[k] == Strip(rest[q[k]])
    ensures var lines, p := [line] + rest, Shift(q);
      forall k :: 0 <= k < |p| ==> 0 <= p[k] < |lines| && answers[k] == Strip(lines[p[k]])
  {
    var lines, p := [line] + rest, Shift(q);
    forall k | 0 <= k < |p|
      ensures 0 <= p[k] < |lines| && answers[k] == Strip(lines[p[k]])
    {
      assert lines[p[k]] == rest[q[k]];
    }
  }

  lemma ShiftIncreasing(q: seq<int>)
    requires Increasing(q)
    ensures Increasing(Shift(q))
  {
  }

  lemma DropBlanks(line: string, rest: seq<string>, q: seq<int>)
    requires Strip(line) == ""
    requires forall i :: 0 <= i < |rest| && i !in q ==> Strip(rest[i]) == ""
    ensures var lines := [line] + rest;
      forall i :: 0 <= i < |lines| && i !in Shift(q) ==> Strip(lines[i]) == ""
  {
    var lines := [line] + rest;
    forall i | 0 <= i < |lines| && i !in Shift(q)
      ensures Strip(lines[i]) == ""
    {
      if i > 0 {
        ShiftedOut(q, i);
        assert lines[i] == rest[i - 1];
      }
    }
  }

  lemma TraceKeep(line: string, rest: seq<string>, answers: seq<string>, q: seq<int>)
    requires |Strip(line)| > 0 && Traces(rest, answers, q)
    ensures Traces([line] + rest, [Strip(line)] + answers, [0] + Shift(q))
  {
    KeepIndices(line, rest, answers, q);
    KeepIncreasing(q);
    KeepBlanks(line, rest, q);
  }

  lemma KeepIndices(line: string, rest: seq<string>, answers: seq<string>, q: seq<int>)
    requires |q| == |answers|
    requires forall k :: 0 <= k < |q| ==> 0 <= q[k] < |rest| && answers[k] == Strip(rest[q[k]])
    ensures var lines, p := [line] + rest, [0] + Shift(q);
      forall k :: 0 <= k < |p| ==> 0 <= p[k] < |lines| && ([Strip(line)] + answers)[k] == Strip(lines[p[k]])
  {
    var lines, p := [line] + rest, [0] + Shift(q);
    forall k | 0 <= k < |p|
      ensures 0 <= p[k] < |lines| && ([Strip(line)] + answers)[k] == Strip(lines[p[k]])
    {
      if k > 0 {
        assert p[k] == q[k - 1] + 1;
        assert lines[p[k]] == rest[q[k - 1]];
      }
    }
  }

  lemma KeepIncreasing(q: seq<int>)
    requires Increasing(q) && forall k :: 0 <= k < |q| ==> q[k] >= 0
    ensures Increasing([0] + Shift(q))
  {
    var p := [0] + Shift(q);
    forall k, m | 0 <= k < m < |p|
      ensures p[k] < p[m]
    {
      assert p[m] == q[m - 1] + 1;
      if k > 0 {
        assert p[k] == q[k - 1] + 1;
      }
    }
  }

  lemma KeepBlanks(line: string, rest: seq<string>, q: seq<int>)
    requires forall i :: 0 <= i < |rest| && i !in q ==> Strip(rest[i]) == ""
    ensures var lines, p := [line] + rest, [0] + Shift(q);
      forall i :: 0 <= i < |lines| && i !in p ==> Strip(lines[i]) == ""
  {
    var lines, p := [line] + rest, [0] + Shift(q);
    forall i | 0 <= i < |lines| && i !in p
      ensures Strip(lines[i]) == ""
    {
      assert i != 0;
      assert i !in Shift(q) by {
        assert p == [0] + Shift(q);
      }
      ShiftedOut(q, i);
      assert lines[i] == rest[i - 1];
    }
  }

  /** A line number missing from `Shift(q)` comes from a number missing from `q`. */
  lemma ShiftedOut(q: seq<int>, i: int)
    requires i > 0 && i !in Shift(q)
    ensures i - 1 !in q
  {
    var s := Shift(q);
    forall k | 0 <= k < |q|
      ensures q[k] != i - 1
    {
      assert s[k] in s;
    }
  }

  /** Reading the lines of two files one after the other reads each file's answers in turn. */
  lemma {:induction false} AnswerLinesAppend(a: seq<string>, b: seq<string>)
    ensures AnswerLines(a + b) == AnswerLines(a) + AnswerLines(b)
    decreases |a|
  {
    if |a| > 0 {
      assert (a + b)[0] == a[0] && (a + b)[1..] == a[1..] + b;
      AnswerLinesAppend(a[1..], b);
    } else {
      assert a + b == b;
    }
  }

  /** Reading answers already stripped and non-blank changes nothing. */
  lemma {:induction false} AnswerLinesKeeps(lines: seq<string>)
    requires forall a :: a in lines ==> |a| > 0 && Strip(a) == a
    ensures AnswerLines(lines) == lines
    decreases |lines|
  {
    if |lines| > 0 {
      var first, rest := lines[0], lines[1..];
      assert first in lines;
      KeptKeeps(first);
      assert forall a :: a in rest ==> a in lines;
      AnswerLinesKeeps(rest);
      assert AnswerLines(lines) == Kept(first) + AnswerLines(rest);
      assert lines == [first] + rest;
    }
  }

  /** A stripped, non-blank line is kept as it is. */
  lemma KeptKeeps(a: string)
    requires |a| > 0 && Strip(a) == a
    ensures Kept(a) == [a]
  {
  }

  /** Reading the answers back is idempotent. */
  lemma AnswerLinesIdempotent(lines: seq<string>)
    ensures AnswerLines(AnswerLines(lines)) == AnswerLines(lines)
  {
    AnswerLinesKeeps(AnswerLines(lines));
  }

  /**
   * The lines of a file to which each answer was written followed by `\n`.
   * Reading them back gives what reading the answers themselves gives: the
   * line ends are invisible to the comprehension.
   */
  function WrittenLines(answers: seq<string>): (lines: seq<string>)
    ensures |lines| == |answers|
    ensures AnswerLines(lines) == AnswerLines(answers)
  {
    if |answers| == 0 then []
    else
      StripByBlankEnd(StripBlanks, answers[0], '\n');
      assert answers[0] + "\n" == answers[0] + ['\n'];
      var rest := WrittenLines(answers[1..]);
      assert ([answers[0] + "\n"] + rest)[1..] == rest;
      [answers[0] + "\n"] + rest
  }

  /**
   * `parse_fraction(std) == parse_fraction(user)` inside the `try`: a text
   * that does not parse makes the answer wrong.
   */
  predicate Matches(std: string, user: string) {
    var a, b := ParseFraction(std), ParseFraction(user);
    a.Success? && b.Success? && a.value == b.value
  }

  /** Agreement is an equivalence between the texts that parse. */
  lemma MatchesEquivalence(s: string, t: string, u: string)
    ensures Matches(s, s) <==> ParseFraction(s).Success?
    ensures Matches(s, t) <==> Matches(t, s)
    ensures Matches(s, t) && Matches(t, u) ==> Matches(s, u)
  {
  }

  /**
   * Against a written non-negative answer, a user's text is correct exactly
   * when it parses to the same fraction.
   */
  lemma MatchesFormatted(v: Fraction, s: string)
    requires v.num >= 0
    ensures Matches(FormatFraction(v), s) <==> ParseFraction(s) == Success(v)
  {
    FormatThenParse(v);
  }

  /** A mixed number and the equal improper fraction are graded equal, as `1'1/2` and `3/2` are. */
  lemma MixedMatchesImproper(w: int, n: int, d: int)
    requires d > 0
    ensures Matches(IntToString(w) + "'" + IntToString(n) + "/" + IntToString(d),
                    IntToString(w * d + n) + "/" + IntToString(d))
  {
    ParseMixed(w, n, d);
    ParseSimple(w * d + n, d);
    MixedValue(w, n, d);
    ValueInjective(Add(FromInt(w), Make(n, d)), Make(w * d + n, d));
  }

  /**
   * The answers `generate` writes, read back by `grade` and graded against
   * themselves, are all correct.
   */
  lemma SelfGrading(values: seq<Fraction>)
    requires forall v :: v in values ==> v.num >= 0
    ensures var answers := seq(|values|, i requires 0 <= i < |values| => FormatFraction(values[i]));
      && AnswerLines(WrittenLines(answers)) == answers
      && forall i :: 0 <= i < |answers| ==> Matches(answers[i], answers[i])
  {
    var answers := seq(|values|, i requires 0 <= i < |values| => FormatFraction(values[i]));
    forall i | 0 <= i < |answers|
      ensures |answers[i]| > 0 && Strip(answers[i]) == answers[i]
      ensures Matches(answers[i], answers[i])
    {
      assert values[i] in values;
      FormatFractionChars(values[i]);
      StripByNoBlank(StripBlanks, answers[i]);
      FormatThenParse(values[i]);
    }
    forall a | a in answers
      ensures |a| > 0 && Strip(a) == a
    {
      var i :| 0 <= i < |answers| && answers[i] == a;
    }
    AnswerLinesKeeps(answers);
  }

  /** The smaller of the two answer counts: `zip` stops at the shorter list. */
  function Min(a: int, b: int): int {
    if a < b then a else b
  }

  /** Strictly increasing: the order in which `grade` appends question numbers. */
  predicate Increasing(s: seq<int>) {
    forall i, j :: 0 <= i < j < |s| ==> s[i] < s[j]
  }

  /**
   * The loop of `grade`: question numbers from 1, as `enumerate(zip(...), 1)`
   * gives them, each pair of answers put into `correct` when `agree` holds
   * for it and into `wrong` otherwise.  `Grade` passes `Matches`.
   */
  method Classify(std: seq<string>, user: seq<string>, agree: (string, string) -> bool)
      returns (correct: seq<int>, wrong: seq<int>)
    ensures |correct| + |wrong| == Min(|std|, |user|)
    ensures Increasing(correct) && Increasing(wrong)
    ensures forall k :: k in correct <==> 1 <= k <= Min(|std|, |user|) && agree(std[k - 1], user[k - 1])
    ensures forall k :: k in wrong <==> 1 <= k <= Min(|std|, |user|) && !agree(std[k - 1], user[k - 1])
  {
    var m := Min(|std|, |user|);
    correct, wrong := [], [];
    var idx := 1;
    while idx <= m
      invariant 1 <= idx <= m + 1 || (m <= 0 && idx == 1)
      invariant |correct| + |wrong| == idx - 1
      invariant forall i :: 0 <= i < |correct| ==> 1 <= correct[i] < idx
      invariant forall i :: 0 <= i < |wrong| ==> 1 <= wrong[i] < idx
      invariant Increasing(correct) && Increasing(wrong)
      invariant forall k :: 1 <= k < idx ==> (k in correct <==> agree(std[k - 1], user[k - 1]))
      invariant forall k :: 1 <= k < idx ==> (k in wrong <==> !agree(std[k - 1], user[k - 1]))
    {
      if agree(std[idx - 1], user[idx - 1]) {
        correct := correct + [idx];
      } else {
        wrong := wrong + [idx];
      }
      idx := idx + 1;
    }
  }

  /**
   * `grade(exercise_file, answer_file)` without the file output: both files
   * are read as their answer lines, then classified by `Matches`.  The
   * source never reads the exercise file, so it is not a parameter here.
   */
  method Grade(stdLines: seq<string>, userLines: seq<string>)
      returns (correct: seq<int>, wrong: seq<int>)
    ensures var std, user := AnswerLines(stdLines), AnswerLines(userLines);
      && |correct| + |wrong| == Min(|std|, |user|)
      && Increasing(correct) && Increasing(wrong)
      && (forall k :: k in correct <==> 1 <= k <= Min(|std|, |user|) && Matches(std[k - 1], user[k - 1]))
      && (forall k :: k in wrong <==> 1 <= k <= Min(|std|, |user|) && !Matches(std[k - 1], user[k - 1]))
  {
    var std := AnswerLines(stdLines);
    var user := AnswerLines(userLines);
    correct, wrong := Classify(std, user, Matches);
  }
}
