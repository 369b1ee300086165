/**
 * The Python `str` and `int` operations the generator and the merge script
 * depend on, over `string` (= `seq<char>`): prefix and substring tests,
 * `str.replace`, `str.strip`, `str.lower` (ASCII only), `str < str`,
 * `int(...)`, `str(int)` and the zero-padded formats `%06d` and `{:010d}`.
 */
module Text {
  import opened Wrappers

  lemma EndsWithAppend(a: string, b: string)
    ensures EndsWith(a + b, b)
  {
    assert (a + b)[|a|..] == b;
  }

  predicate StartsWith(s: string, prefix: string) {
    |prefix| <= |s| && s[..|prefix|] == prefix
  }

  predicate EndsWith(s: string, suffix: string) {
    |suffix| <= |s| && s[|s| - |suffix|..] == suffix
  }

  /** Python `sub in s`. */
  predicate Contains(s: string, sub: string) {
    exists i | 0 <= i <= |s| :: StartsWith(s[i..], sub)
  }

  /** `str.lower` restricted to ASCII letters; every other character is kept. */
  function LowerChar(c: char): char {
    if 'A' <= c <= 'Z' then (c as int + 32) as char else c
  }

  function Lower(s: string): string {
    seq(|s|, i requires 0 <= i < |s| => LowerChar(s[i]))
  }

  // ---------------------------------------------------------------------------
  // str.replace(pat, rep): every non-overlapping occurrence, scanning left to
  // right; with an empty `pat`, Python inserts `rep` before every character
  // and at the end.
  // ---------------------------------------------------------------------------

  function ReplaceAll(s: string, pat: string, rep: string): string
    decreases |s|
  {
    if |pat| == 0 then
      if |s| == 0 then rep else rep + [s[0]] + ReplaceAll(s[1..], pat, rep)
    else if |s| == 0 then
      ""
    else if StartsWith(s, pat) then
      rep + ReplaceAll(s[|pat|..], pat, rep)
    else
      [s[0]] + ReplaceAll(s[1..], pat, rep)
  }

  /** Replacing a string that does not occur changes nothing. */
  lemma {:induction false} ReplaceAbsent(s: string, pat: string, rep: string)
    requires |pat| > 0 && !Contains(s, pat)
    ensures ReplaceAll(s, pat, rep) == s
  {
    if |s| > 0 {
      assert s[0..] == s;
      assert !StartsWith(s, pat);
      forall i | 0 <= i <= |s[1..]|
        ensures !StartsWith(s[1..][i..], pat)
      {
        assert s[1..][i..] == s[i + 1..];
      }
      ReplaceAbsent(s[1..], pat, rep);
    }
  }

  /** Replacing one character by another is a character-wise substitution. */
  lemma {:induction false} ReplaceChar(s: string, c: char, d: char)
    ensures |ReplaceAll(s, [c], [d])| == |s|
    ensures forall i | 0 <= i < |s| ::
      ReplaceAll(s, [c], [d])[i] == (if s[i] == c then d else s[i])
  {
    if |s| > 0 {
      ReplaceChar(s[1..], c, d);
      var r := ReplaceAll(s[1..], [c], [d]);
      if StartsWith(s, [c]) {
        assert s[|[c]|..] == s[1..];
        assert ReplaceAll(s, [c], [d]) == [d] + r;
      } else {
        assert ReplaceAll(s, [c], [d]) == [s[0]] + r;
      }
    }
  }

  /** With an empty pattern, one copy of `rep` is inserted per gap. */
  lemma {:induction false} ReplaceEmptyLength(s: string, rep: string)
    ensures |ReplaceAll(s, "", rep)| == |s| + (|s| + 1) * |rep|
  {
    if |s| > 0 {
      ReplaceEmptyLength(s[1..], rep);
    }
  }

  /** No occurrence of `pat` can start inside `t` when `t` lacks its first character. */
  lemma {:induction false} ReplaceSkip(t: string, r: string, pat: string, rep: string)
    requires |pat| > 0 && pat[0] !in t
    ensures ReplaceAll(t + r, pat, rep) == t + ReplaceAll(r, pat, rep)
  {
    if |t| > 0 {
      var s := t + r;
      assert s[0] == t[0] && s[0] != pat[0];
      assert !StartsWith(s, pat);
      assert s[1..] == t[1..] + r;
      ReplaceSkip(t[1..], r, pat, rep);
    } else {
      assert t + r == r;
    }
  }

  /**
   * A chunk that starts like `pat` but differs from it at position `j`, and
   * holds no further first character of `pat`, is copied unchanged.
   */
  lemma ReplaceSkipMismatch(t: string, r: string, pat: string, rep: string, j: nat)
    requires 0 < j < |pat| && j < |t|
    requires t[0] == pat[0] && t[j] != pat[j]
    requires pat[0] !in t[1..]
    ensures ReplaceAll(t + r, pat, rep) == t + ReplaceAll(r, pat, rep)
  {
    var s := t + r;
    assert s[j] == t[j];
    assert !StartsWith(s, pat) by {
      assert |pat| <= |s| ==> s[..|pat|][j] != pat[j];
    }
    assert s[1..] == t[1..] + r;
    calc {
      ReplaceAll(s, pat, rep);
      [s[0]] + ReplaceAll(s[1..], pat, rep);
      { ReplaceSkip(t[1..], r, pat, rep); }
      [t[0]] + (t[1..] + ReplaceAll(r, pat, rep));
      { assert t == [t[0]] + t[1..]; }
      t + ReplaceAll(r, pat, rep);
    }
  }

  // ---------------------------------------------------------------------------
  // str.strip(chars): drop leading and trailing characters that occur in
  // `chars` (a set of characters, not a prefix or suffix).
  // ---------------------------------------------------------------------------

  function StripLeft(s: string, chars: string): string
    decreases |s|
  {
    if |s| > 0 && s[0] in chars then StripLeft(s[1..], chars) else s
  }

  function StripRight(s: string, chars: string): string
    decreases |s|
  {
    if |s| > 0 && s[|s| - 1] in chars then StripRight(s[..|s| - 1], chars) else s
  }

  /** `lstrip` removes the longest leading run of characters from `chars` and nothing else. */
  lemma {:induction false} StripLeftShape(s: string, chars: string)
    ensures var r := StripLeft(s, chars);
      |r| <= |s| && r == s[|s| - |r|..]
      && (forall k | 0 <= k < |s| - |r| :: s[k] in chars)
      && (|r| > 0 ==> r[0] !in chars)
    decreases |s|
  {
    if |s| > 0 && s[0] in chars {
      StripLeftShape(s[1..], chars);
    }
  }

  /** `rstrip` removes the longest trailing run of characters from `chars` and nothing else. */
  lemma {:induction false} StripRightShape(s: string, chars: string)
    ensures var r := StripRight(s, chars);
      |r| <= |s| && r == s[..|r|]
      && (forall k | |r| <= k < |s| :: s[k] in chars)
      && (|r| > 0 ==> r[|r| - 1] !in chars)
    decreases |s|
  {
    if |s| > 0 && s[|s| - 1] in chars {
      StripRightShape(s[..|s| - 1], chars);
    }
  }

  function Strip(s: string, chars: string): string {
    StripRight(StripLeft(s, chars), chars)
  }

  /** Characters outside `chars` at the front stop the left strip at once. */
  lemma StripLeftKeeps(s: string, chars: string)
    requires |s| > 0 && s[0] !in chars
    ensures StripLeft(s, chars) == s
  {
  }

  /** A leading run of stripped characters is removed whatever follows it. */
  lemma {:induction false} StripLeftPrefix(a: string, b: string, chars: string)
    requires forall k | 0 <= k < |a| :: a[k] in chars
    ensures StripLeft(a + b, chars) == StripLeft(b, chars)
  {
    if |a| > 0 {
      var s := a + b;
      assert s[0] == a[0];
      assert s[1..] == a[1..] + b;
      StripLeftPrefix(a[1..], b, chars);
    } else {
      assert a + b == b;
    }
  }

  /** Stripping stops where the stripped characters end. */
  lemma StripLeftUpTo(a: string, b: string, chars: string)
    requires forall k | 0 <= k < |a| :: a[k] in chars
    requires |b| > 0 && b[0] !in chars
    ensures StripLeft(a + b, chars) == b
  {
    StripLeftPrefix(a, b, chars);
    StripLeftKeeps(b, chars);
  }

  /** A trailing run of stripped characters is removed whatever comes before it. */
  lemma {:induction false} StripRightSuffix(a: string, b: string, chars: string)
    requires forall k | 0 <= k < |b| :: b[k] in chars
    ensures StripRight(a + b, chars) == StripRight(a, chars)
  {
    if |b| > 0 {
      var s := a + b;
      assert s[|s| - 1] == b[|b| - 1];
      assert s[..|s| - 1] == a + b[..|b| - 1];
      StripRightSuffix(a, b[..|b| - 1], chars);
    } else {
      assert a + b == a;
    }
  }

  // ---------------------------------------------------------------------------
  // Decimal digits.
  // ---------------------------------------------------------------------------

  predicate IsDigit(c: char) {
    '0' <= c <= '9'
  }

  predicate IsDigits(s: string) {
    forall i | 0 <= i < |s| :: IsDigit(s[i])
  }

  lemma NotInDigits(d: string, c: char)
    requires IsDigits(d) && !IsDigit(c)
    ensures c !in d
  {
    assert forall i | 0 <= i < |d| :: d[i] != c;
  }

  function DigitChar(d: nat): (c: char)
    requires d < 10
    ensures IsDigit(c) && c as int - '0' as int == d
  {
    ('0' as int + d) as char
  }

  /** The value of a string of decimal digits, most significant first. */
  function DigitsValue(s: string): nat
    requires IsDigits(s)
  {
    if |s| == 0 then 0 else DigitsValue(s[..|s| - 1]) * 10 + (s[|s| - 1] as int - '0' as int)
  }

  function Pow10(n: nat): (p: nat)
    ensures p >= 1
  {
    if n == 0 then 1 else 10 * Pow10(n - 1)
  }

  /**
   * `x` in decimal, left-padded with '0' to at least `width` digits: C's
   * `%0<width>d` and Python's `{x:0<width>d}` for a non-negative `x`.
   */
  function Decimal(x: nat, width: nat): (r: string)
    ensures |r| >= 1 && |r| >= width
    ensures IsDigits(r) && DigitsValue(r) == x
    decreases x, width
  {
    if x < 10 && width <= 1 then
      [DigitChar(x)]
    else
      var r := Decimal(x / 10, if width == 0 then 0 else width - 1) + [DigitChar(x % 10)];
      assert r[..|r| - 1] == Decimal(x / 10, if width == 0 then 0 else width - 1);
      r
  }

  /** A number below 10^width takes exactly `width` digits. */
  lemma {:induction false} DecimalLength(x: nat, width: nat)
    requires width >= 1 && x < Pow10(width)
    ensures |Decimal(x, width)| == width
  {
    if width > 1 {
      DecimalLength(x / 10, width - 1);
    }
  }

  /** Equal digit strings have equal values. */
  lemma DecimalInjective(x: nat, y: nat, width: nat)
    requires Decimal(x, width) == Decimal(y, width)
    ensures x == y
  {
  }

  /** Python `str(v)` for an integer. */
  function FormatInt(v: int): string {
    if v < 0 then "-" + Decimal(-v, 0) else Decimal(v, 0)
  }

  /** Python `f'{v:010d}'`: width 10 counts the sign, zeros go after it. */
  function Format010(v: int): string {
    if v < 0 then "-" + Decimal(-v, 9) else Decimal(v, 10)
  }

  /**
   * Python `int(s)` for an optional sign followed by ASCII digits; every
   * other string is a ValueError.
   */
  function ParseInt(s: string): Option<int> {
    if |s| > 0 && (s[0] == '+' || s[0] == '-') then
      if |s| > 1 && IsDigits(s[1..]) then
        Some(if s[0] == '-' then -(DigitsValue(s[1..]) as int) else DigitsValue(s[1..]))
      else
        None
    else if |s| > 0 && IsDigits(s) then
      Some(DigitsValue(s))
    else
      None
  }

  /** `int` of plain digits is their value. */
  lemma ParseDigits(d: string)
    requires |d| > 0 && IsDigits(d)
    ensures ParseInt(d) == Some(DigitsValue(d) as int)
  {
    assert IsDigit(d[0]);
  }

  /** Concatenation regroups freely. */
  lemma Assoc<T>(a: seq<T>, b: seq<T>, c: seq<T>)
    ensures a + (b + c) == a + b + c
  {
  }

  // ---------------------------------------------------------------------------
  // Python's ordering of `str`: lexicographic by code point, a proper prefix
  // first. This is the order `sorted` puts file names in.
  // ---------------------------------------------------------------------------

  predicate LexLess(a: string, b: string)
    decreases |a|
  {
    |b| > 0 && (|a| == 0 || a[0] < b[0] || (a[0] == b[0] && LexLess(a[1..], b[1..])))
  }

  lemma {:induction false} LexIrreflexive(a: string)
    ensures !LexLess(a, a)
  {
    if |a| > 0 {
      LexIrreflexive(a[1..]);
    }
  }

  lemma {:induction false} LexAsymmetric(a: string, b: string)
    requires LexLess(a, b)
    ensures !LexLess(b, a)
  {
    if |a| > 0 && a[0] == b[0] {
      LexAsymmetric(a[1..], b[1..]);
    }
  }

  lemma {:induction false} LexTransitive(a: string, b: string, c: string)
    requires LexLess(a, b) && LexLess(b, c)
    ensures LexLess(a, c)
  {
    if |a| > 0 && a[0] == b[0] && b[0] == c[0] {
      LexTransitive(a[1..], b[1..], c[1..]);
    }
  }

  lemma {:induction false} LexTotal(a: string, b: string)
    requires a != b
    ensures LexLess(a, b) || LexLess(b, a)
  {
    if |a| > 0 && |b| > 0 && a[0] == b[0] {
      assert a == [a[0]] + a[1..] && b == [b[0]] + b[1..];
      LexTotal(a[1..], b[1..]);
    }
  }

  /** Comparing two strings whose first parts have equal length. */
  lemma {:induction false} LexAppend(a: string, b: string, s: string, t: string)
    requires |a| == |b|
    ensures LexLess(a + s, b + t) <==> LexLess(a, b) || (a == b && LexLess(s, t))
  {
    if |a| == 0 {
      assert a + s == s && b + t == t;
    } else {
      assert (a + s)[1..] == a[1..] + s && (b + t)[1..] == b[1..] + t;
      LexAppend(a[1..], b[1..], s, t);
      if a[0] == b[0] {
        assert a == b <==> a[1..] == b[1..] by {
          assert a == [a[0]] + a[1..] && b == [b[0]] + b[1..];
        }
      }
    }
  }

  /** One-digit strings compare as their digits. */
  lemma DigitLess(c: nat, d: nat)
    requires c < 10 && d < 10
    ensures LexLess([DigitChar(c)], [DigitChar(d)]) <==> c < d
  {
    assert [DigitChar(c)][1..] == [] && [DigitChar(d)][1..] == [];
  }

  /** Numbers compare by their leading digits first and their last digit second. */
  lemma LastDigitOrder(x: nat, y: nat)
    ensures x < y <==> x / 10 < y / 10 || (x / 10 == y / 10 && x % 10 < y % 10)
  {
  }

  /** A number of at least two digits' width is its leading digits followed by its last digit. */
  lemma DecimalSplit(x: nat, width: nat)
    requires width >= 2
    ensures Decimal(x, width) == Decimal(x / 10, width - 1) + [DigitChar(x % 10)]
  {
  }

  /** The inductive step of DecimalOrder: the last digit decides between equal leading digits. */
  lemma DecimalOrderStep(x: nat, y: nat, width: nat)
    requires width >= 2 && x < Pow10(width) && y < Pow10(width)
    requires LexLess(Decimal(x / 10, width - 1), Decimal(y / 10, width - 1)) <==> x / 10 < y / 10
    ensures LexLess(Decimal(x, width), Decimal(y, width)) <==> x < y
  {
    var a, b := Decimal(x / 10, width - 1), Decimal(y / 10, width - 1);
    var c, d := [DigitChar(x % 10)], [DigitChar(y % 10)];
    DecimalSplit(x, width);
    DecimalSplit(y, width);
    DecimalLength(x / 10, width - 1);
    DecimalLength(y / 10, width - 1);
    LexAppend(a, b, c, d);
    LastDigitOrder(x, y);
    if x / 10 == y / 10 {
      DigitLess(x % 10, y % 10);
      assert LexLess(a + c, b + d) <==> LexLess(c, d);
    } else {
      assert a != b;
      assert LexLess(a + c, b + d) <==> LexLess(a, b);
    }
  }

  /** Zero-padded numbers of one width sort as strings exactly as they do as numbers. */
  lemma {:induction false} DecimalOrder(x: nat, y: nat, width: nat)
    requires width >= 1 && x < Pow10(width) && y < Pow10(width)
    ensures LexLess(Decimal(x, width), Decimal(y, width)) <==> x < y
  {
    if width == 1 {
      DigitLess(x, y);
    } else {
      DecimalOrder(x / 10, y / 10, width - 1);
      DecimalOrderStep(x, y, width);
    }
  }
}
