/**
 * The text forms of dates and times the backend reads and writes:
 * `date.isoformat()`, `time.strftime('%H:%M')`, and `datetime.strptime` with the
 * formats '%Y-%m-%d', '%H:%M' and '%H:%M:%S'.
 *
 * strptime is more lenient than its format string suggests: every field except the
 * year also accepts a single digit ('%m' matches "1".."9", '%d' also matches a space
 * followed by a digit), and the value is range-checked afterwards by the `datetime`
 * constructor. The token grammars below are those of Python's `_strptime` module.
 */
module TextFormat {
  import opened Wrappers
  import opened Calendar

  predicate IsDigit(c: char) {
    '0' <= c <= '9'
  }

  function DigitValue(c: char): (v: int)
    requires IsDigit(c)
    ensures 0 <= v <= 9
  {
    c as int - '0' as int
  }

  function DigitChar(v: int): (c: char)
    requires 0 <= v <= 9
    ensures IsDigit(c) && DigitValue(c) == v
  {
    ('0' as int + v) as char
  }

  /** `'%02d' % n` */
  function Pad2(n: int): (s: string)
    requires 0 <= n < 100
    ensures |s| == 2 && IsDigit(s[0]) && IsDigit(s[1])
    ensures DigitValue(s[0]) * 10 + DigitValue(s[1]) == n
  {
    [DigitChar(n / 10), DigitChar(n % 10)]
  }

  /** `'%04d' % n` */
  function Pad4(n: int): (s: string)
    requires 0 <= n < 10000
    ensures |s| == 4 && forall i :: 0 <= i < 4 ==> IsDigit(s[i])
    ensures DigitValue(s[0]) * 1000 + DigitValue(s[1]) * 100 + DigitValue(s[2]) * 10 + DigitValue(s[3]) == n
  {
    var hi, lo := Pad2(n / 100), Pad2(n % 100);
    assert n == (n / 100) * 100 + n % 100;
    hi + lo
  }

  /** `str(n)` for a non-negative integer. */
  function NatToString(n: nat): (s: string)
    ensures |s| >= 1 && forall i :: 0 <= i < |s| ==> IsDigit(s[i])
  {
    if n < 10 then [DigitChar(n)] else NatToString(n / 10) + [DigitChar(n % 10)]
  }

  /** `int(s)` for a string of decimal digits. */
  function DigitsValue(s: string): (n: nat)
    requires forall i :: 0 <= i < |s| ==> IsDigit(s[i])
  {
    if |s| == 0 then 0 else DigitsValue(s[..|s| - 1]) * 10 + DigitValue(s[|s| - 1])
  }

  /** `int(str(n)) == n`. */
  lemma {:induction false} NatToStringReadsBack(n: nat)
    ensures DigitsValue(NatToString(n)) == n
  {
    var s := NatToString(n);
    if n >= 10 {
      NatToStringReadsBack(n / 10);
      assert s[..|s| - 1] == NatToString(n / 10);
    }
  }

  /** Index of the first occurrence of `c` in `s`. */
  function FirstIndexOf(s: string, c: char): (r: Option<nat>)
    ensures r.Some? ==> r.value < |s| && s[r.value] == c && forall i :: 0 <= i < r.value ==> s[i] != c
    ensures r.None? ==> forall i :: 0 <= i < |s| ==> s[i] != c
  {
    if |s| == 0 then None
    else if s[0] == c then Some(0)
    else match FirstIndexOf(s[1..], c)
      case None => None
      case Some(k) => Some(k + 1)
  }

  /** The first occurrence is where the character appears with none before it. */
  lemma {:induction false} FirstIndexOfAt(s: string, c: char, k: nat)
    requires k < |s| && s[k] == c && forall i :: 0 <= i < k ==> s[i] != c
    ensures FirstIndexOf(s, c) == Some(k)
  {
    if k > 0 {
      FirstIndexOfAt(s[1..], c, k - 1);
    }
  }

  // ------------------------------------------------------------- rendering

  /** `date.isoformat()`: YYYY-MM-DD. */
  function IsoDate(d: Day): (s: string)
    ensures |s| == 10 && s[4] == '-' && s[7] == '-'
  {
    Pad4(d.year) + "-" + Pad2(d.month) + "-" + Pad2(d.day)
  }

  /** `time.strftime('%H:%M')`: zero-padded hour and minute; seconds are dropped. */
  function ClockText(t: TimeOfDay): (s: string)
    ensures |s| == 5 && s[2] == ':'
  {
    Pad2(Hour(t)) + ":" + Pad2(Minute(t))
  }

  // ------------------------------------------------------------- strptime field tokens

  /** The number two decimal digits stand for. */
  function TwoDigits(s: string): int
    requires |s| == 2 && IsDigit(s[0]) && IsDigit(s[1])
  {
    DigitValue(s[0]) * 10 + DigitValue(s[1])
  }

  /** '%Y': exactly four digits. */
  function YearToken(s: string): (r: Option<int>)
    ensures r.Some? <==> |s| == 4 && IsDigit(s[0]) && IsDigit(s[1]) && IsDigit(s[2]) && IsDigit(s[3])
    ensures r.Some? ==> r.value == TwoDigits(s[..2]) * 100 + TwoDigits(s[2..])
  {
    if |s| == 4 && IsDigit(s[0]) && IsDigit(s[1]) && IsDigit(s[2]) && IsDigit(s[3])
    then Some(DigitValue(s[0]) * 1000 + DigitValue(s[1]) * 100 + DigitValue(s[2]) * 10 + DigitValue(s[3]))
    else None
  }

  /** '%m': `1[0-2]|0[1-9]|[1-9]`. */
  function MonthToken(s: string): (r: Option<int>)
    ensures r.Some? ==> 1 <= r.value <= 12
    ensures r.Some? && |s| == 2 ==> IsDigit(s[0]) && IsDigit(s[1]) && r.value == TwoDigits(s)
  {
    if |s| == 2 && s[0] == '1' && '0' <= s[1] <= '2' then Some(10 + DigitValue(s[1]))
    else if |s| == 2 && s[0] == '0' && '1' <= s[1] <= '9' then Some(DigitValue(s[1]))
    else if |s| == 1 && '1' <= s[0] <= '9' then Some(DigitValue(s[0]))
    else None
  }

  /** '%d': `3[01]|[12]\d|0[1-9]|[1-9]| [1-9]`. */
  function DayToken(s: string): (r: Option<int>)
    ensures r.Some? ==> 1 <= r.value <= 31
    ensures r.Some? && |s| == 2 && IsDigit(s[0]) ==> IsDigit(s[1]) && r.value == TwoDigits(s)
  {
    if |s| == 2 && s[0] == '3' && '0' <= s[1] <= '1' then Some(30 + DigitValue(s[1]))
    else if |s| == 2 && '1' <= s[0] <= '2' && IsDigit(s[1]) then Some(DigitValue(s[0]) * 10 + DigitValue(s[1]))
    else if |s| == 2 && s[0] == '0' && '1' <= s[1] <= '9' then Some(DigitValue(s[1]))
    else if |s| == 1 && '1' <= s[0] <= '9' then Some(DigitValue(s[0]))
    else if |s| == 2 && s[0] == ' ' && '1' <= s[1] <= '9' then Some(DigitValue(s[1]))
    else None
  }

  /** '%H': `2[0-3]|[0-1]\d|\d`. */
  function HourToken(s: string): (r: Option<int>)
    ensures r.Some? ==> 0 <= r.value <= 23
    ensures r.Some? ==> 1 <= |s| <= 2
    ensures r.Some? && |s| == 2 ==> IsDigit(s[0]) && IsDigit(s[1]) && r.value == TwoDigits(s)
  {
    if |s| == 2 && s[0] == '2' && '0' <= s[1] <= '3' then Some(20 + DigitValue(s[1]))
    else if |s| == 2 && '0' <= s[0] <= '1' && IsDigit(s[1]) then Some(DigitValue(s[0]) * 10 + DigitValue(s[1]))
    else if |s| == 1 && IsDigit(s[0]) then Some(DigitValue(s[0]))
    else None
  }

  /**
   * '%M' (`[0-5]\d|\d`) and '%S' (`6[0-1]|[0-5]\d|\d`, where 60 and 61 are then refused
   * by the `time` constructor): one or two digits denoting 0..59.
   */
  function SexagesimalToken(s: string): (r: Option<int>)
    ensures r.Some? ==> 0 <= r.value <= 59
    ensures r.Some? ==> 1 <= |s| <= 2
    ensures r.Some? && |s| == 2 ==> IsDigit(s[0]) && IsDigit(s[1]) && r.value == TwoDigits(s)
  {
    if |s| == 2 && '0' <= s[0] <= '5' && IsDigit(s[1]) then Some(DigitValue(s[0]) * 10 + DigitValue(s[1]))
    else if |s| == 1 && IsDigit(s[0]) then Some(DigitValue(s[0]))
    else None
  }

  // ------------------------------------------------------------- padding and tokens

  /** A digit's value written back is the same digit. */
  lemma DigitRoundTrip(c: char)
    requires IsDigit(c)
    ensures DigitChar(DigitValue(c)) == c
  {
  }

  /** Two digits read as a number and padded back are the same two characters. */
  lemma Pad2Canonical(s: string)
    requires |s| == 2 && IsDigit(s[0]) && IsDigit(s[1])
    ensures Pad2(TwoDigits(s)) == s
  {
    var n := TwoDigits(s);
    assert n / 10 == DigitValue(s[0]) && n % 10 == DigitValue(s[1]);
    DigitRoundTrip(s[0]);
    DigitRoundTrip(s[1]);
  }

  /** Four digits read as a year and padded back are the same four characters. */
  lemma Pad4Canonical(s: string)
    requires |s| == 4 && IsDigit(s[0]) && IsDigit(s[1]) && IsDigit(s[2]) && IsDigit(s[3])
    ensures YearToken(s).Some? && Pad4(YearToken(s).value) == s
  {
    var hi, lo := TwoDigits(s[..2]), TwoDigits(s[2..]);
    var n := YearToken(s).value;
    assert n / 100 == hi && n % 100 == lo;
    Pad2Canonical(s[..2]);
    Pad2Canonical(s[2..]);
    assert s == s[..2] + s[2..];
  }

  /** A padded number reads back as that number. */
  lemma TwoDigitsOfPad2(n: int)
    requires 0 <= n < 100
    ensures TwoDigits(Pad2(n)) == n
  {
  }

  lemma YearTokenOfPad4(y: int)
    requires 0 <= y < 10000
    ensures YearToken(Pad4(y)) == Some(y)
  {
    var s := Pad4(y);
    assert s[..2] == Pad2(y / 100) && s[2..] == Pad2(y % 100);
    TwoDigitsOfPad2(y / 100);
    TwoDigitsOfPad2(y % 100);
  }

  lemma MonthTokenOfPad2(m: int)
    requires 1 <= m <= 12
    ensures MonthToken(Pad2(m)) == Some(m)
  {
  }

  lemma DayTokenOfPad2(d: int)
    requires 1 <= d <= 31
    ensures DayToken(Pad2(d)) == Some(d)
  {
  }

  lemma HourTokenOfPad2(h: int)
    requires 0 <= h <= 23
    ensures HourToken(Pad2(h)) == Some(h)
  {
  }

  lemma SexagesimalTokenOfPad2(m: int)
    requires 0 <= m <= 59
    ensures SexagesimalToken(Pad2(m)) == Some(m)
  {
  }

  // ------------------------------------------------------------- strptime

  /** `datetime.strptime(s, '%Y-%m-%d').date()`; None where Python raises ValueError. */
  function ParseDate(s: string): (r: Option<Day>)
    ensures r.Some? ==> |s| >= 8 && s[4] == '-'
  {
    if |s| < 5 || s[4] != '-' then None
    else
      match (YearToken(s[..4]), FirstIndexOf(s[5..], '-'))
      case (Some(y), Some(k)) =>
        (match (MonthToken(s[5..5 + k]), DayToken(s[5 + k + 1..]))
         case (Some(m), Some(d)) =>
           if MinYear <= y && d <= DaysInMonth(y, m) then Some(Date(y, m, d)) else None
         case _ => None)
      case _ => None
  }

  /** `datetime.strptime(s, '%H:%M').time()`; None where Python raises ValueError. */
  function ParseClock(s: string): (r: Option<TimeOfDay>)
    ensures r.Some? ==> Second(r.value) == 0
  {
    match FirstIndexOf(s, ':')
    case None => None
    case Some(k) =>
      match (HourToken(s[..k]), SexagesimalToken(s[k + 1..]))
      case (Some(h), Some(m)) => Some(Clock(h, m, 0))
      case _ => None
  }

  /** `datetime.strptime(s, '%H:%M:%S').time()`; None where Python raises ValueError. */
  function ParseClockSeconds(s: string): (r: Option<TimeOfDay>)
  {
    match FirstIndexOf(s, ':')
    case None => None
    case Some(k) =>
      match FirstIndexOf(s[k + 1..], ':')
      case None => None
      case Some(j) =>
        match (HourToken(s[..k]), SexagesimalToken(s[k + 1..k + 1 + j]), SexagesimalToken(s[k + 1 + j + 1..]))
        case (Some(h), Some(m), Some(sec)) => Some(Clock(h, m, sec))
        case _ => None
  }

  // ------------------------------------------------------------- round trips

  /** Every date's ISO text parses back to the same date. */
  lemma ParseIsoDate(d: Day)
    ensures ParseDate(IsoDate(d)) == Some(d)
  {
    var s := IsoDate(d);
    assert s[..4] == Pad4(d.year);
    assert s[5..] == Pad2(d.month) + "-" + Pad2(d.day);
    FirstIndexOfAt(s[5..], '-', 2);
    assert s[5..7] == Pad2(d.month);
    assert s[8..] == Pad2(d.day);
    YearTokenOfPad4(d.year);
    MonthTokenOfPad2(d.month);
    DayTokenOfPad2(d.day);
  }

  /** A ten-character all-digit date text that parses is exactly the ISO text of its date. */
  lemma IsoDateCanonical(s: string)
    requires |s| == 10 && forall i :: 0 <= i < 10 && i != 4 && i != 7 ==> IsDigit(s[i])
    requires ParseDate(s).Some?
    ensures IsoDate(ParseDate(s).value) == s
  {
    var d := ParseDate(s).value;
    var k := FirstIndexOf(s[5..], '-').value;
    assert s[5..][0] != '-' && s[5..][1] != '-';
    assert k == 2;
    assert IsDigit(s[0]) && IsDigit(s[1]) && IsDigit(s[2]) && IsDigit(s[3]);
    Pad4Canonical(s[..4]);
    assert IsDigit(s[5..7][0]) && IsDigit(s[8..][0]);
    Pad2Canonical(s[5..7]);
    Pad2Canonical(s[8..]);
    assert s == s[..4] + "-" + s[5..7] + "-" + s[8..];
  }

  /** Rendering a time as HH:MM and parsing it back yields the time truncated to the minute. */
  lemma ParseClockText(t: TimeOfDay)
    ensures ParseClock(ClockText(t)) == Some(ToMinute(t))
  {
    var s := ClockText(t);
    FirstIndexOfAt(s, ':', 2);
    assert s[..2] == Pad2(Hour(t));
    assert s[3..] == Pad2(Minute(t));
    HourTokenOfPad2(Hour(t));
    SexagesimalTokenOfPad2(Minute(t));
    ClockOfFields(ToMinute(t));
  }

  /** A five-character time text that parses is exactly the HH:MM text of its time. */
  lemma ClockTextCanonical(s: string)
    requires |s| == 5 && ParseClock(s).Some?
    ensures ClockText(ParseClock(s).value) == s
  {
    var k := FirstIndexOf(s, ':').value;
    assert k == 2;
    Pad2Canonical(s[..2]);
    Pad2Canonical(s[3..]);
    assert s == s[..2] + ":" + s[3..];
  }
}
