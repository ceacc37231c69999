/**
 * The parts of Python's `str` and `int` that the codec relies on:
 * `str.strip`, `str.split` on one character, `str.count`,
 * `str.replace(c, '')`, `sorted`, `str(int)` and `int(str)`.
 */
module Text {
  import opened Wrappers

  /** `str.isspace` for one character (the whitespace Python's `strip` removes). */
  predicate IsSpace(c: char) {
    || '\t' <= c <= '\r'
    || '\U{1C}' <= c <= ' '
    || c == '\U{85}' || c == '\U{A0}' || c == '\U{1680}'
    || '\U{2000}' <= c <= '\U{200A}'
    || c == '\U{2028}' || c == '\U{2029}' || c == '\U{202F}'
    || c == '\U{205F}' || c == '\U{3000}'
  }

  /**
   * The whitespace `int()` skips around its digits: that of `str.isspace`
   * except the separators U+001C to U+001F, which `int()` rejects although
   * `str.strip` removes them.
   */
  predicate IsIntSpace(c: char) {
    IsSpace(c) && !('\U{1C}' <= c <= '\U{1F}')
  }

  /** Which whitespace is trimmed: that of `str.strip`, or the smaller set `int()` skips. */
  datatype Blanks = StripBlanks | IntBlanks

  predicate IsBlank(w: Blanks, c: char) {
    match w
    case StripBlanks => IsSpace(c)
    case IntBlanks => IsIntSpace(c)
  }

  /** The number of blank characters at the front of `s`. */
  function Leading(w: Blanks, s: string): (i: nat)
    ensures i <= |s|
    ensures i < |s| ==> !IsBlank(w, s[i])
  {
    if |s| == 0 || !IsBlank(w, s[0]) then 0 else 1 + Leading(w, s[1..])
  }

  /** The number of blank characters at the back of `s`. */
  function Trailing(w: Blanks, s: string): (i: nat)
    ensures i <= |s|
    ensures i < |s| ==> !IsBlank(w, s[|s| - 1 - i])
  {
    if |s| == 0 || !IsBlank(w, s[|s| - 1]) then 0 else 1 + Trailing(w, s[..|s| - 1])
  }

  /** `s` without its blanks at both ends: the longest middle part that starts and ends with a non-blank. */
  function StripBy(w: Blanks, s: string): (r: string)
    ensures |r| == 0 || (!IsBlank(w, r[0]) && !IsBlank(w, r[|r| - 1]))
  {
    var t := s[Leading(w, s)..];
    t[..|t| - Trailing(w, t)]
  }

  /** `s.strip()`. */
  function Strip(s: string): (r: string)
    ensures |r| == 0 || (!IsSpace(r[0]) && !IsSpace(r[|r| - 1]))
  {
    StripBy(StripBlanks, s)
  }

  /** The text `int()` reads digits from: `s` without the whitespace it skips at both ends. */
  function IntStrip(s: string): (r: string)
    ensures |r| == 0 || (!IsIntSpace(r[0]) && !IsIntSpace(r[|r| - 1]))
  {
    StripBy(IntBlanks, s)
  }

  /** Text without blanks is left as it is. */
  lemma StripByNoBlank(w: Blanks, s: string)
    requires forall c :: c in s ==> !IsBlank(w, c)
    ensures StripBy(w, s) == s
  {
    assert Leading(w, s) == 0;
    if |s| > 0 {
      assert s[0] in s && s[|s| - 1] in s;
    }
  }

  /** `s` is the blanks cut off the front, the stripped text, and the blanks cut off the back. */
  lemma StripBySplits(w: Blanks, s: string) returns (front: string, back: string)
    ensures s == front + StripBy(w, s) + back
    ensures forall c :: c in front ==> IsBlank(w, c)
    ensures forall c :: c in back ==> IsBlank(w, c)
  {
    var i := Leading(w, s);
    var t := s[i..];
    front, back := s[..i], t[|t| - Trailing(w, t)..];
    ThreeSlices(s, i, |t| - Trailing(w, t));
    FrontBlanks(w, s);
    BackBlanks(w, t);
  }

  /** A blank appended to `s` is stripped off again. */
  lemma StripByBlankEnd(w: Blanks, s: string, c: char)
    requires IsBlank(w, c)
    ensures StripBy(w, s + [c]) == StripBy(w, s)
  {
    var i := Leading(w, s);
    LeadingBlankEnd(w, s, c);
    if i < |s| {
      assert (s + [c])[i..] == s[i..] + [c];
      TrimBlankEnd(w, s[i..], c);
    } else {
      assert (s + [c])[|s| + 1..] == [] && s[|s|..] == [];
    }
  }

  /** Cutting the trailing blanks of `t + [c]` cuts the blank `c` as well. */
  lemma TrimBlankEnd(w: Blanks, t: string, c: char)
    requires IsBlank(w, c)
    ensures var u := t + [c]; u[..|u| - Trailing(w, u)] == t[..|t| - Trailing(w, t)]
  {
    TrailingBlankEnd(w, t, c);
    var n := Trailing(w, t);
    assert (t + [c])[..|t| - n] == t[..|t| - n];
  }

  /** Appending a blank to `s` lengthens its leading blanks only when `s` is all blank. */
  lemma {:induction false} LeadingBlankEnd(w: Blanks, s: string, c: char)
    requires IsBlank(w, c)
    ensures Leading(w, s + [c]) == if Leading(w, s) == |s| then |s| + 1 else Leading(w, s)
    decreases |s|
  {
    if |s| > 0 {
      assert (s + [c])[0] == s[0] && (s + [c])[1..] == s[1..] + [c];
      if IsBlank(w, s[0]) {
        LeadingBlankEnd(w, s[1..], c);
      }
    } else {
      assert [c][1..] == [];
    }
  }

  /** Appending a blank to `t` adds one trailing blank. */
  lemma TrailingBlankEnd(w: Blanks, t: string, c: char)
    requires IsBlank(w, c)
    ensures Trailing(w, t + [c]) == 1 + Trailing(w, t)
  {
    assert (t + [c])[..|t|] == t;
  }

  /** The last `k` elements of `s` are the last `k - 1` before its last one, then its last one. */
  lemma LastSlice<T>(s: seq<T>, k: int)
    requires 1 <= k <= |s|
    ensures s[|s| - k..] == s[..|s| - 1][|s| - k..] + [s[|s| - 1]]
  {
  }

  /** Cutting `s` at `i` and the rest at `j` loses nothing. */
  lemma ThreeSlices<T>(s: seq<T>, i: int, j: int)
    requires 0 <= i <= |s| && 0 <= j <= |s| - i
    ensures s == s[..i] + s[i..][..j] + s[i..][j..]
  {
    var t := s[i..];
    assert t == t[..j] + t[j..];
    assert s == s[..i] + t;
  }

  /** Every character counted by `Leading` is blank. */
  lemma {:induction false} FrontBlanks(w: Blanks, s: string)
    ensures forall c :: c in s[..Leading(w, s)] ==> IsBlank(w, c)
    decreases |s|
  {
    if Leading(w, s) > 0 {
      FrontBlanks(w, s[1..]);
      assert s[..Leading(w, s)] == [s[0]] + s[1..][..Leading(w, s[1..])];
    }
  }

  /** Every character counted by `Trailing` is blank. */
  lemma {:induction false} BackBlanks(w: Blanks, t: string)
    ensures forall c :: c in t[|t| - Trailing(w, t)..] ==> IsBlank(w, c)
    decreases |t|
  {
    var n := Trailing(w, t);
    if n > 0 {
      var init := t[..|t| - 1];
      assert n == 1 + Trailing(w, init) && IsBlank(w, t[|t| - 1]);
      BackBlanks(w, init);
      LastSlice(t, n);
    }
  }

  /** Stripping twice is stripping once. */
  lemma StripIdempotent(s: string)
    ensures Strip(Strip(s)) == Strip(s)
  {
    var r := Strip(s);
    assert Leading(StripBlanks, r) == 0;
    if |r| > 0 {
      assert Trailing(StripBlanks, r) == 0;
    }
  }

  /** `sep.join(parts)` for a one-character separator. */
  function Join(parts: seq<string>, sep: char): string
    requires |parts| >= 1
  {
    if |parts| == 1 then parts[0] else parts[0] + [sep] + Join(parts[1..], sep)
  }

  /** `s.split(sep)` for a one-character separator. */
  function Split(s: string, sep: char): (parts: seq<string>)
    ensures |parts| == multiset(s)[sep] + 1
    ensures forall i :: 0 <= i < |parts| ==> sep !in parts[i]
  {
    if |s| == 0 then [""]
    else
      var rest := Split(s[1..], sep);
      assert multiset(s) == multiset{s[0]} + multiset(s[1..]) by {
        assert s == [s[0]] + s[1..];
      }
      if s[0] == sep then [""] + rest
      else
        var parts := [[s[0]] + rest[0]] + rest[1..];
        assert forall i :: 1 <= i < |parts| ==> parts[i] == rest[i];
        parts
  }

  /** Joining the parts of a split gives the string back. */
  lemma {:induction false} JoinSplit(s: string, sep: char)
    ensures Join(Split(s, sep), sep) == s
  {
    if |s| > 0 {
      JoinSplit(s[1..], sep);
      var rest := Split(s[1..], sep);
      assert s == [s[0]] + s[1..];
      if s[0] == sep {
        assert Split(s, sep) == [""] + rest;
        JoinEmptyFirst(rest, sep);
      } else {
        assert Split(s, sep) == [[s[0]] + rest[0]] + rest[1..];
        JoinPrepend(s[0], rest, sep);
      }
    }
  }

  lemma JoinEmptyFirst(parts: seq<string>, sep: char)
    requires |parts| >= 1
    ensures Join([""] + parts, sep) == [sep] + Join(parts, sep)
  {
    var all := [""] + parts;
    assert all[0] == "" && all[1..] == parts;
  }

  lemma JoinPrepend(c: char, parts: seq<string>, sep: char)
    requires |parts| >= 1
    ensures Join([[c] + parts[0]] + parts[1..], sep) == [c] + Join(parts, sep)
  {
    var all := [[c] + parts[0]] + parts[1..];
    if |parts| > 1 {
      assert all[1..] == parts[1..];
    }
  }

  /** Splitting undoes joining parts that do not contain the separator. */
  lemma {:induction false} SplitJoin(parts: seq<string>, sep: char)
    requires |parts| >= 1
    requires forall i :: 0 <= i < |parts| ==> sep !in parts[i]
    ensures Split(Join(parts, sep), sep) == parts
  {
    if |parts| == 1 {
      SplitFree(parts[0], sep);
    } else {
      SplitJoin(parts[1..], sep);
      SplitAt(parts[0], sep, Join(parts[1..], sep));
    }
  }

  lemma {:induction false} SplitFree(s: string, sep: char)
    requires sep !in s
    ensures Split(s, sep) == [s]
  {
    if |s| > 0 {
      SplitFree(s[1..], sep);
      assert s[0] != sep;
      assert [s[0]] + s[1..] == s;
    }
  }

  lemma {:induction false} SplitAt(a: string, sep: char, b: string)
    requires sep !in a
    ensures Split(a + [sep] + b, sep) == [a] + Split(b, sep)
    decreases |a|
  {
    if |a| == 0 {
      SplitSeparatorFirst(sep, b);
      assert a + [sep] + b == [sep] + b;
    } else {
      var a', x := a[1..], a[1..] + [sep] + b;
      assert a + [sep] + b == [a[0]] + x;
      SplitAt(a', sep, b);
      SplitCons(a[0], x, sep);
      var parts := Split(x, sep);
      assert parts[0] == a' && parts[1..] == Split(b, sep);
      assert [a[0]] + a' == a;
    }
  }

  /** The split of a string that starts with the separator. */
  lemma SplitSeparatorFirst(sep: char, b: string)
    ensures Split([sep] + b, sep) == [""] + Split(b, sep)
  {
    assert ([sep] + b)[1..] == b;
  }

  /** The split of a string whose first character is not the separator. */
  lemma SplitCons(c: char, x: string, sep: char)
    requires c != sep
    ensures Split([c] + x, sep) == [[c] + Split(x, sep)[0]] + Split(x, sep)[1..]
  {
    assert ([c] + x)[1..] == x;
  }

  predicate IsDigit(c: char) {
    '0' <= c <= '9'
  }

  predicate IsDigits(s: string) {
    |s| > 0 && forall k :: 0 <= k < |s| ==> IsDigit(s[k])
  }

  function DigitChar(d: nat): (c: char)
    requires d < 10
    ensures IsDigit(c)
  {
    (d + '0' as int) as char
  }

  function DigitValue(c: char): (d: nat)
    requires IsDigit(c)
    ensures d < 10 && DigitChar(d) == c
  {
    c as int - '0' as int
  }

  /** `str(n)` for a natural number: decimal digits, no leading zero. */
  function NatToString(n: nat): (s: string)
    ensures IsDigits(s)
    ensures s[0] == '0' ==> n == 0
    decreases n
  {
    if n < 10 then [DigitChar(n)] else NatToString(n / 10) + [DigitChar(n % 10)]
  }

  /** The number a string of decimal digits denotes (leading zeros allowed, as in `int()`). */
  function DigitsValue(s: string): nat
    requires forall k :: 0 <= k < |s| ==> IsDigit(s[k])
  {
    if |s| == 0 then 0 else DigitsValue(s[..|s| - 1]) * 10 + DigitValue(s[|s| - 1])
  }

  /** Reading back the decimal rendering of a natural number gives the number. */
  lemma {:induction false} DigitsValueOfNatToString(n: nat)
    ensures DigitsValue(NatToString(n)) == n
    decreases n
  {
    var s := NatToString(n);
    if n >= 10 {
      DigitsValueOfNatToString(n / 10);
      assert s[..|s| - 1] == NatToString(n / 10);
    }
  }

  lemma {:induction false} LeadingDigitPositive(s: string)
    requires IsDigits(s) && s[0] != '0'
    ensures DigitsValue(s) >= 1
    decreases |s|
  {
    if |s| > 1 {
      LeadingDigitPositive(s[..|s| - 1]);
    }
  }

  /** Rendering the value of a digit string without leading zeros gives the string back. */
  lemma {:induction false} NatToStringOfDigitsValue(s: string)
    requires IsDigits(s) && (s[0] != '0' || |s| == 1)
    ensures NatToString(DigitsValue(s)) == s
    decreases |s|
  {
    if |s| > 1 {
      var init := s[..|s| - 1];
      NatToStringOfDigitsValue(init);
      LeadingDigitPositive(init);
      var n := DigitsValue(s);
      assert n / 10 == DigitsValue(init) && n % 10 == DigitValue(s[|s| - 1]);
      assert s == init + [s[|s| - 1]];
    }
  }

  /** `str(i)` for any integer: an optional `-` followed by the digits of `|i|`. */
  function IntToString(i: int): string {
    if i < 0 then "-" + NatToString(-i) else NatToString(i)
  }

  /**
   * `int(s)` on text: surrounding whitespace is ignored, an optional `+` or
   * `-` sign is followed by one or more decimal digits; anything else is
   * rejected, as Python does by raising `ValueError`.
   */
  function ParseInt(s: string): (r: Option<int>)
    ensures r.Some? ==> |IntStrip(s)| > 0
  {
    ParseSigned(IntStrip(s))
  }

  /** `int()` skips nothing but whitespace, so every other character stays in what it reads. */
  lemma IntStripKeeps(s: string, c: char)
    requires !IsIntSpace(c)
    ensures c in IntStrip(s) <==> c in s
  {
    var front, back := StripBySplits(IntBlanks, s);
    assert c !in front && c !in back;
  }

  /** `int()` rejects a separator U+001C that `str.strip` would have removed. */
  lemma IntRejectsSeparator()
    ensures Strip("1\U{1C}") == "1"
    ensures ParseInt("1\U{1C}") == None
    ensures ParseInt(" 1\t") == Some(1)
  {
    var s, t := "1\U{1C}", " 1\t";
    assert Leading(StripBlanks, s) == 0 && Trailing(StripBlanks, s[..1]) == 0;
    assert Leading(IntBlanks, s) == 0 && Trailing(IntBlanks, s) == 0;
    assert !IsDigit(s[1]);
    assert Leading(IntBlanks, t) == 1 && Trailing(IntBlanks, t[1..]) == 1;
    assert IntStrip(t) == "1";
  }

  /** `int()` of text with the whitespace already stripped. */
  function ParseSigned(t: string): (r: Option<int>)
    ensures r.Some? ==> |t| > 0
  {
    if |t| > 0 && (t[0] == '-' || t[0] == '+') then
      var digits := t[1..];
      if IsDigits(digits) then
        var v: int := DigitsValue(digits);
        Some(if t[0] == '-' then -v else v)
      else None
    else if IsDigits(t) then Some(DigitsValue(t))
    else None
  }

  /** Every character `str(i)` produces is a digit or the minus sign. */
  predicate IsNumeral(c: char) {
    IsDigit(c) || c == '-'
  }

  lemma IntToStringChars(i: int)
    ensures |IntToString(i)| > 0
    ensures forall c :: c in IntToString(i) ==> IsNumeral(c)
  {
    var s := IntToString(i);
    forall c | c in s ensures IsNumeral(c) {
      var k :| 0 <= k < |s| && s[k] == c;
    }
  }

  /** `int(str(i)) == i`. */
  lemma ParseIntOfIntToString(i: int)
    ensures ParseInt(IntToString(i)) == Some(i)
  {
    if i < 0 {
      ParseIntOfNegative(i);
    } else {
      ParseIntOfNatural(i);
    }
  }

  lemma ParseIntOfNegative(i: int)
    requires i < 0
    ensures ParseInt(IntToString(i)) == Some(i)
  {
    var t := NatToString(-i);
    DigitsValueOfNatToString(-i);
    ParseNegative(t, i);
    assert IntToString(i) == "-" + t;
  }

  lemma ParseIntOfNatural(i: nat)
    ensures ParseInt(IntToString(i)) == Some(i)
  {
    var t := NatToString(i);
    DigitsValueOfNatToString(i);
    ParseDigits(t);
  }

  lemma ParseDigits(t: string)
    requires IsDigits(t)
    ensures ParseInt(t) == Some(DigitsValue(t))
  {
    StripByNoBlank(IntBlanks, t);
    assert IsDigit(t[0]);
  }

  lemma ParseNegative(t: string, i: int)
    requires IsDigits(t) && DigitsValue(t) == -i
    ensures ParseInt("-" + t) == Some(i)
  {
    var s := "-" + t;
    SignedDigitsNoSpace(t);
    StripByNoBlank(IntBlanks, s);
    assert s[1..] == t;
  }

  lemma SignedDigitsNoSpace(t: string)
    requires IsDigits(t)
    ensures forall c :: c in "-" + t ==> !IsSpace(c)
  {
    forall c | c in "-" + t ensures !IsSpace(c) {
      if c != '-' {
        var k :| 0 <= k < |t| && t[k] == c;
        assert IsDigit(t[k]);
      }
    }
  }

  /** `s.replace(c, '')`: every occurrence of `c` removed, the rest in order. */
  function Remove(s: string, c: char): (r: string)
    ensures c !in r
    ensures multiset(r) == multiset(s)[c := 0]
  {
    if |s| == 0 then ""
    else
      assert s == [s[0]] + s[1..];
      if s[0] == c then Remove(s[1..], c) else [s[0]] + Remove(s[1..], c)
  }

  /** Removing from `s + t` removes from each part and keeps the parts in order. */
  lemma {:induction false} RemoveAppend(s: string, t: string, c: char)
    ensures Remove(s + t, c) == Remove(s, c) + Remove(t, c)
    decreases |s|
  {
    if |s| > 0 {
      assert (s + t)[0] == s[0] && (s + t)[1..] == s[1..] + t;
      RemoveAppend(s[1..], t, c);
    } else {
      assert s + t == t;
    }
  }

  /** A single character is dropped when it is `c` and kept otherwise. */
  lemma RemoveSingle(x: char, c: char)
    ensures Remove([x], c) == if x == c then "" else [x]
  {
    assert [x][1..] == "";
  }

  /** Ascending order of code points, the order of Python's `sorted` on a string. */
  predicate Sorted(s: string) {
    forall i, j :: 0 <= i < j < |s| ==> s[i] <= s[j]
  }

  lemma ConsSorted(x: char, t: string)
    requires Sorted(t) && forall k :: 0 <= k < |t| ==> x <= t[k]
    ensures Sorted([x] + t)
  {
    var r := [x] + t;
    forall i, j | 0 <= i < j < |r| ensures r[i] <= r[j] {
      assert r[j] == t[j - 1];
      if i > 0 {
        assert r[i] == t[i - 1];
      }
    }
  }

  lemma LowerBound(s: string, c: char, t: string)
    requires Sorted(s) && |s| > 0 && s[0] <= c
    requires multiset(t) == multiset(s[1..]) + multiset{c}
    ensures forall k :: 0 <= k < |t| ==> s[0] <= t[k]
  {
    forall k | 0 <= k < |t| ensures s[0] <= t[k] {
      assert t[k] in multiset(t);
      if t[k] != c {
        assert t[k] in multiset(s[1..]);
        var m :| 0 <= m < |s[1..]| && s[1..][m] == t[k];
        assert s[m + 1] == t[k];
      }
    }
  }

  /** Inserts `c` into a sorted string at its place. */
  function Insert(c: char, s: string): (r: string)
    requires Sorted(s)
    ensures Sorted(r)
    ensures multiset(r) == multiset(s) + multiset{c}
  {
    if |s| == 0 || c <= s[0] then
      ConsSorted(c, s);
      [c] + s
    else
      var tail := Insert(c, s[1..]);
      assert s == [s[0]] + s[1..];
      LowerBound(s, c, tail);
      ConsSorted(s[0], tail);
      [s[0]] + tail
  }

  /** `sorted(s)`: the characters of `s` in ascending order. */
  function Sort(s: string): (r: string)
    ensures Sorted(r)
    ensures multiset(r) == multiset(s)
  {
    if |s| == 0 then ""
    else
      assert s == [s[0]] + s[1..];
      Insert(s[0], Sort(s[1..]))
  }

  /** A sorted string is determined by its multiset of characters. */
  lemma {:induction false} SortedUnique(a: string, b: string)
    requires Sorted(a) && Sorted(b) && multiset(a) == multiset(b)
    ensures a == b
    decreases |a|
  {
    assert |a| == |multiset(a)| == |multiset(b)| == |b|;
    if |a| > 0 {
      SameHead(a, b);
      SortedUnique(a[1..], b[1..]);
      assert a == [a[0]] + a[1..] && b == [b[0]] + b[1..];
    }
  }

  /** Two sorted strings with the same characters start alike and agree on the rest's characters. */
  lemma SameHead(a: string, b: string)
    requires Sorted(a) && Sorted(b) && multiset(a) == multiset(b) && |a| > 0 && |b| > 0
    ensures a[0] == b[0] && multiset(a[1..]) == multiset(b[1..])
    ensures Sorted(a[1..]) && Sorted(b[1..])
  {
    assert a[0] in multiset(b) && b[0] in multiset(a) by {
      assert a[0] in a && b[0] in b;
    }
    HeadIsLeast(a, b[0]);
    HeadIsLeast(b, a[0]);
    TailMultiset(a);
    TailMultiset(b);
  }

  /** The first character of a sorted string is at most any character in it. */
  lemma HeadIsLeast(s: string, c: char)
    requires Sorted(s) && c in multiset(s)
    ensures s[0] <= c
  {
    var k :| 0 <= k < |s| && s[k] == c;
  }

  /** Dropping the first character removes one copy of it and keeps the rest sorted. */
  lemma TailMultiset(s: string)
    requires |s| > 0 && Sorted(s)
    ensures multiset(s[1..]) == multiset(s) - multiset{s[0]}
    ensures Sorted(s[1..])
  {
    assert s == [s[0]] + s[1..];
  }

  /** Stripping never adds or removes a non-whitespace character. */
  lemma StripKeeps(s: string, c: char)
    requires !IsSpace(c)
    ensures multiset(Strip(s))[c] == multiset(s)[c]
    ensures c in Strip(s) <==> c in s
  {
    var front, back := StripBySplits(StripBlanks, s);
    assert multiset(s) == multiset(front) + multiset(Strip(s)) + multiset(back);
    assert c !in front && c !in back;
  }
}
