/**
 * Input validators of the backend (backend/app/utils/validators.py).
 *
 * The email and phone checks are `re.match` with patterns ending in `$`, which in
 * Python also matches just before one trailing newline; the date and time checks
 * succeed exactly when `strptime` succeeds.
 */
module Validators {
  import opened Wrappers
  import opened Calendar
  import opened TextFormat

  const MinPasswordLength := 6

  predicate IsLetter(c: char) {
    ('a' <= c <= 'z') || ('A' <= c <= 'Z')
  }

  /** `[a-zA-Z0-9._%+-]` */
  predicate IsLocalChar(c: char) {
    IsLetter(c) || IsDigit(c) || c == '.' || c == '_' || c == '%' || c == '+' || c == '-'
  }

  /** `[a-zA-Z0-9.-]` */
  predicate IsDomainChar(c: char) {
    IsLetter(c) || IsDigit(c) || c == '.' || c == '-'
  }

  predicate AllLocal(s: string) { forall i :: 0 <= i < |s| ==> IsLocalChar(s[i]) }
  predicate AllDomain(s: string) { forall i :: 0 <= i < |s| ==> IsDomainChar(s[i]) }
  predicate AllLetters(s: string) { forall i :: 0 <= i < |s| ==> IsLetter(s[i]) }
  predicate AllDigits(s: string) { forall i :: 0 <= i < |s| ==> IsDigit(s[i]) }

  /** The '@' at `i` and the '.' at `j` split `t` into local part, domain and top-level domain. */
  predicate EmailSplit(t: string, i: int, j: int) {
    && 1 <= i && i + 2 <= j && j + 3 <= |t|
    && t[i] == '@' && t[j] == '.'
    && AllLocal(t[..i]) && AllDomain(t[i + 1..j]) && AllLetters(t[j + 1..])
  }

  /** The whole text matches `[a-zA-Z0-9._%+-]+@[a-zA-Z0-9.-]+\.[a-zA-Z]{2,}`. */
  ghost predicate MatchesEmailPattern(t: string) {
    exists i, j :: EmailSplit(t, i, j)
  }

  /** Python's `$` also matches before a single trailing newline. */
  function WithoutFinalNewline(s: string): string {
    if |s| > 0 && s[|s| - 1] == '\n' then s[..|s| - 1] else s
  }

  /** Index of the last occurrence of `c` in `s`. */
  function LastIndexOf(s: string, c: char): (r: Option<nat>)
    ensures r.Some? ==> r.value < |s| && s[r.value] == c && forall i :: r.value < i < |s| ==> s[i] != c
    ensures r.None? ==> forall i :: 0 <= i < |s| ==> s[i] != c
  {
    if |s| == 0 then None
    else if s[|s| - 1] == c then Some(|s| - 1)
    else LastIndexOf(s[..|s| - 1], c)
  }

  /** The last occurrence is where the character appears with none after it. */
  lemma {:induction false} LastIndexOfAt(s: string, c: char, k: nat)
    requires k < |s| && s[k] == c && forall i :: k < i < |s| ==> s[i] != c
    ensures LastIndexOf(s, c) == Some(k)
  {
    if k < |s| - 1 {
      LastIndexOfAt(s[..|s| - 1], c, k);
    }
  }

  /** A split the pattern admits uses the first '@' (no character class before it admits one) and the last '.' (the top-level domain is letters only). */
  lemma EmailSplitIsUnique(t: string, i0: nat, j0: nat)
    requires EmailSplit(t, i0, j0)
    ensures FirstIndexOf(t, '@') == Some(i0) && LastIndexOf(t, '.') == Some(j0)
  {
    forall k | 0 <= k < i0
      ensures t[k] != '@'
    {
      assert t[..i0][k] == t[k];
    }
    FirstIndexOfAt(t, '@', i0);
    forall k | j0 < k < |t|
      ensures t[k] != '.'
    {
      assert t[j0 + 1..][k - j0 - 1] == t[k];
    }
    LastIndexOfAt(t, '.', j0);
  }

  lemma EmailPatternUsesMarks(t: string)
    ensures MatchesEmailPattern(t) ==>
      FirstIndexOf(t, '@').Some? && LastIndexOf(t, '.').Some?
      && EmailSplit(t, FirstIndexOf(t, '@').value, LastIndexOf(t, '.').value)
  {
    if MatchesEmailPattern(t) {
      var i0, j0 :| EmailSplit(t, i0, j0);
      EmailSplitIsUnique(t, i0, j0);
    }
  }

  /** Decides the email pattern on a text without its optional final newline. */
  function EmailCore(t: string): (r: bool)
    ensures r <==> MatchesEmailPattern(t)
  {
    EmailPatternUsesMarks(t);
    match (FirstIndexOf(t, '@'), LastIndexOf(t, '.'))
    case (Some(i), Some(j)) => EmailSplit(t, i, j)
    case _ => false
  }

  /** `validate_email`: the whole text, up to one final newline, matches the email pattern. */
  function ValidateEmail(s: string): (r: bool)
    ensures r <==> MatchesEmailPattern(WithoutFinalNewline(s))
  {
    EmailCore(WithoutFinalNewline(s))
  }

  function CountDigits(s: string): (n: nat)
    ensures n <= |s|
    ensures n == |s| <==> AllDigits(s)
  {
    if |s| == 0 then 0
    else
      var n := CountDigits(s[..|s| - 1]) + (if IsDigit(s[|s| - 1]) then 1 else 0);
      assert s[..|s| - 1] + [s[|s| - 1]] == s;
      n
  }

  /** `validate_phone`: exactly ten ASCII digits, up to one final newline. */
  function ValidatePhone(s: string): (r: bool)
    ensures r <==> var t := WithoutFinalNewline(s); |t| == 10 && AllDigits(t)
  {
    var t := WithoutFinalNewline(s);
    |t| == 10 && CountDigits(t) == 10
  }

  /** `validate_password`: at least six characters. */
  function ValidatePassword(s: string): (r: bool)
    ensures r <==> |s| >= MinPasswordLength
  {
    |s| >= MinPasswordLength
  }

  /** `validate_date`: `strptime(s, '%Y-%m-%d')` succeeds. */
  function ValidateDate(s: string): bool {
    ParseDate(s).Some?
  }

  /** `validate_time`: `strptime(s, '%H:%M')` succeeds. */
  function ValidateTime(s: string): bool {
    ParseClock(s).Some?
  }

  /** On zero-padded YYYY-MM-DD text, `validate_date` accepts exactly the real calendar dates. */
  lemma ValidateDateIsCalendar(y: int, m: int, d: int)
    requires 0 <= y < 10000 && 0 <= m < 100 && 0 <= d < 100
    ensures ValidateDate(Pad4(y) + "-" + Pad2(m) + "-" + Pad2(d)) <==> ValidDate(Date(y, m, d))
  {
    var s := Pad4(y) + "-" + Pad2(m) + "-" + Pad2(d);
    assert s[..4] == Pad4(y);
    assert s[5..] == Pad2(m) + "-" + Pad2(d);
    FirstIndexOfAt(s[5..], '-', 2);
    assert s[5..7] == Pad2(m);
    assert s[8..] == Pad2(d);
    YearTokenOfPad4(y);
    TwoDigitsOfPad2(m);
    TwoDigitsOfPad2(d);
    assert MonthToken(Pad2(m)).Some? <==> 1 <= m <= 12 by {
      if 1 <= m <= 12 { MonthTokenOfPad2(m); }
    }
    assert DayToken(Pad2(d)).Some? <==> 1 <= d <= 31 by {
      if 1 <= d <= 31 { DayTokenOfPad2(d); }
    }
  }

  /** February 30 never validates, nor February 29 outside leap years. */
  lemma ValidateDateRejectsImpossibleFebruary(y: int)
    requires 0 <= y < 10000
    ensures !ValidateDate(Pad4(y) + "-02-30")
    ensures !IsLeapYear(y) ==> !ValidateDate(Pad4(y) + "-02-29")
  {
    assert Pad2(2) + "-" + Pad2(30) == "02-30";
    assert Pad2(2) + "-" + Pad2(29) == "02-29";
    assert Pad4(y) + "-02-30" == Pad4(y) + "-" + Pad2(2) + "-" + Pad2(30);
    assert Pad4(y) + "-02-29" == Pad4(y) + "-" + Pad2(2) + "-" + Pad2(29);
    ValidateDateIsCalendar(y, 2, 30);
    ValidateDateIsCalendar(y, 2, 29);
  }

  /** On zero-padded HH:MM text, `validate_time` accepts exactly hour <= 23 and minute <= 59. */
  lemma ValidateTimeIsClock(h: int, m: int)
    requires 0 <= h < 100 && 0 <= m < 100
    ensures ValidateTime(Pad2(h) + ":" + Pad2(m)) <==> h <= 23 && m <= 59
  {
    var s := Pad2(h) + ":" + Pad2(m);
    FirstIndexOfAt(s, ':', 2);
    assert s[..2] == Pad2(h);
    assert s[3..] == Pad2(m);
  }

  /** strptime's leniency: a one-digit hour is accepted as well. */
  lemma ValidateTimeAcceptsOneDigitHour(h: int, m: int)
    requires 0 <= h <= 9 && 0 <= m <= 59
    ensures ValidateTime([DigitChar(h)] + ":" + Pad2(m))
    ensures ParseClock([DigitChar(h)] + ":" + Pad2(m)) == Some(Clock(h, m, 0))
  {
    var s := [DigitChar(h)] + ":" + Pad2(m);
    FirstIndexOfAt(s, ':', 1);
    assert s[..1] == [DigitChar(h)];
    assert s[2..] == Pad2(m);
  }
}
