/**
 * The part of Python's `datetime` the parser relies on, as exact integer arithmetic on the
 * proleptic Gregorian calendar: building a date-time (and the `ValueError` for a field out
 * of range), subtracting two of them into a `timedelta` of days and seconds, and
 * formatting with `%Y-%m-%d %H:%M:%S`.
 */
module Calendar {
  import opened Text

  /** A `datetime` to whole seconds; microseconds never change the days or seconds of a difference here. */
  datatype DateTime = DateTime(year: int, month: int, day: int, hour: int, minute: int, second: int)

  predicate IsLeapYear(y: int) {
    y % 4 == 0 && (y % 100 != 0 || y % 400 == 0)
  }

  function DaysInMonth(y: int, m: int): (n: int)
    requires 1 <= m <= 12
    ensures 28 <= n <= 31
  {
    if m == 2 then (if IsLeapYear(y) then 29 else 28)
    else if m == 4 || m == 6 || m == 9 || m == 11 then 30
    else 31
  }

  /** The fields `datetime(...)` accepts without raising `ValueError` (MINYEAR 1, MAXYEAR 9999). */
  predicate IsValid(d: DateTime) {
    1 <= d.year <= 9999 && 1 <= d.month <= 12 && 1 <= d.day <= DaysInMonth(d.year, d.month) &&
    0 <= d.hour < 24 && 0 <= d.minute < 60 && 0 <= d.second < 60
  }

  /** Days from 1 January of year 1 to 1 January of year `y`. */
  function DaysBeforeYear(y: int): int
    requires y >= 1
  {
    var p := y - 1;
    365 * p + p / 4 - p / 100 + p / 400
  }

  /** Days from 1 January to the first of month `m` in year `y`. */
  function DaysBeforeMonth(y: int, m: int): int
    requires 1 <= m <= 12
    decreases m
  {
    if m == 1 then 0 else DaysBeforeMonth(y, m - 1) + DaysInMonth(y, m - 1)
  }

  /** `date.toordinal()`: 1 for 1 January of year 1. */
  function Ordinal(d: DateTime): int
    requires IsValid(d)
  {
    DaysBeforeYear(d.year) + DaysBeforeMonth(d.year, d.month) + d.day
  }

  /** Seconds since midnight at the start of 1 January of year 1. */
  function Seconds(d: DateTime): int
    requires IsValid(d)
  {
    (Ordinal(d) - 1) * 86400 + d.hour * 3600 + d.minute * 60 + d.second
  }

  /** The date-time one day later, at the same time of day. */
  function NextDay(d: DateTime): DateTime
    requires IsValid(d)
  {
    if d.day < DaysInMonth(d.year, d.month) then d.(day := d.day + 1)
    else if d.month < 12 then d.(month := d.month + 1, day := 1)
    else d.(year := d.year + 1, month := 1, day := 1)
  }

  lemma DaysBeforeYearStep(y: int)
    requires y >= 1
    ensures DaysBeforeYear(y + 1) == DaysBeforeYear(y) + (if IsLeapYear(y) then 366 else 365)
  {
    StepOver4(y);
    StepOver100(y);
    StepOver400(y);
  }

  /** Counting the multiples of 4, 100 and 400 up to `y` rather than `y - 1` adds one exactly at a multiple. */
  lemma StepOver4(y: int)
    ensures y / 4 == (y - 1) / 4 + (if y % 4 == 0 then 1 else 0)
  {
  }

  lemma StepOver100(y: int)
    ensures y / 100 == (y - 1) / 100 + (if y % 100 == 0 then 1 else 0)
  {
  }

  lemma StepOver400(y: int)
    ensures y / 400 == (y - 1) / 400 + (if y % 400 == 0 then 1 else 0)
  {
  }

  lemma {:induction false} DaysBeforeDecember(y: int)
    ensures DaysBeforeMonth(y, 12) + DaysInMonth(y, 12) == (if IsLeapYear(y) then 366 else 365)
  {
  }

  /** The day count is a calendar count: the next day's ordinal is one more. */
  lemma OrdinalNextDay(d: DateTime)
    requires IsValid(d) && d.year < 9999
    ensures IsValid(NextDay(d)) && Ordinal(NextDay(d)) == Ordinal(d) + 1
    ensures Seconds(NextDay(d)) == Seconds(d) + 86400
  {
    if d.day == DaysInMonth(d.year, d.month) && d.month == 12 {
      DaysBeforeYearStep(d.year);
      DaysBeforeDecember(d.year);
    }
  }

  /** A `timedelta`, normalised as Python does: `seconds` in 0..86399, `days` possibly negative. */
  datatype Delta = Delta(days: int, seconds: int)

  /** `later - earlier` as a `timedelta`. */
  function Difference(later: DateTime, earlier: DateTime): (r: Delta)
    requires IsValid(later) && IsValid(earlier)
    ensures 0 <= r.seconds < 86400
    ensures r.days * 86400 + r.seconds == Seconds(later) - Seconds(earlier)
  {
    var t := Seconds(later) - Seconds(earlier);
    Delta(t / 86400, t % 86400)
  }

  /**
   * Python 3's `round(seconds / 3600)` for a whole number of seconds: the nearest whole
   * number of hours, a half hour going to the even one. (The float quotient is never
   * within rounding error of a half without being one exactly.)
   */
  function RoundHours(seconds: nat): (h: nat)
    ensures -1800 <= seconds - 3600 * h <= 1800
    ensures seconds - 3600 * h == 1800 || seconds - 3600 * h == -1800 ==> h % 2 == 0
  {
    var q, rem := seconds / 3600, seconds % 3600;
    if rem < 1800 then q
    else if rem > 1800 then q + 1
    else if q % 2 == 0 then q
    else q + 1
  }

  /** Only one number of hours meets the two conditions of `RoundHours`. */
  lemma RoundHoursUnique(seconds: nat, h: nat)
    requires -1800 <= seconds - 3600 * h <= 1800
    requires seconds - 3600 * h == 1800 || seconds - 3600 * h == -1800 ==> h % 2 == 0
    ensures h == RoundHours(seconds)
  {
  }

  /** `strftime('%Y-%m-%d %H:%M:%S')`, with the year written with four digits. */
  function Format(d: DateTime): (s: string)
    requires IsValid(d)
    ensures |s| == 19
  {
    Layout(Padded(d.year, 4), Padded(d.month, 2), Padded(d.day, 2),
           Padded(d.hour, 2), Padded(d.minute, 2), Padded(d.second, 2))
  }

  /** Reads back a text laid out as `Format` writes it: digit fields between `-`, `-`, ` `, `:`, `:`. */
  function ParseFormatted(s: string): DateTime
    requires |s| == 19 && Separated(s)
    requires AllDigits(s[0..4]) && AllDigits(s[5..7]) && AllDigits(s[8..10])
    requires AllDigits(s[11..13]) && AllDigits(s[14..16]) && AllDigits(s[17..19])
  {
    DateTime(DigitsValue(s[0..4]), DigitsValue(s[5..7]), DigitsValue(s[8..10]),
             DigitsValue(s[11..13]), DigitsValue(s[14..16]), DigitsValue(s[17..19]))
  }

  /** The separators `%Y-%m-%d %H:%M:%S` puts between the fields of a 19-character text. */
  predicate Separated(s: string)
    requires |s| == 19
  {
    s[4] == '-' && s[7] == '-' && s[10] == ' ' && s[13] == ':' && s[16] == ':'
  }

  lemma HeadOf(a: string, b: string)
    ensures (a + b)[0..|a|] == a && (a + b)[|a|..] == b
  {
  }

  /** The text `Format` lays out from its six fields. */
  function Layout(y: string, mo: string, dd: string, hh: string, mi: string, ss: string): string {
    y + ("-" + (mo + ("-" + (dd + (" " + (hh + (":" + (mi + (":" + ss)))))))))
  }

  /** A text made of `a`, a one-character separator and `rest` splits back into them. */
  lemma Cut(t: string, a: string, c: char, rest: string)
    requires t == a + ([c] + rest)
    ensures |t| == |a| + 1 + |rest| && t[..|a|] == a && t[|a|] == c && t[|a| + 1..] == rest
  {
  }

  /** What stands `n` characters into a suffix of `s` stands `k + n` characters into `s`. */
  lemma Within(s: string, k: nat, t: string, n: nat)
    requires k <= |s| && s[k..] == t && n <= |t|
    ensures s[k..k + n] == t[..n] && s[k + n..] == t[n..]
    ensures n < |t| ==> s[k + n] == t[n]
  {
  }

  /** The laid-out text, cut at each separator. */
  lemma LayoutCuts(y: string, mo: string, dd: string, hh: string, mi: string, ss: string)
    returns (s1: string, s2: string, s3: string, s4: string)
    requires |y| == 4 && |mo| == 2 && |dd| == 2 && |hh| == 2 && |mi| == 2 && |ss| == 2
    ensures var s := Layout(y, mo, dd, hh, mi, ss);
      |s| == 19 && s[..4] == y && s[4] == '-' && s[5..] == s1 &&
      |s1| == 14 && s1[..2] == mo && s1[2] == '-' && s1[3..] == s2 &&
      |s2| == 11 && s2[..2] == dd && s2[2] == ' ' && s2[3..] == s3 &&
      |s3| == 8 && s3[..2] == hh && s3[2] == ':' && s3[3..] == s4 &&
      |s4| == 5 && s4[..2] == mi && s4[2] == ':' && s4[3..] == ss
  {
    var s := Layout(y, mo, dd, hh, mi, ss);
    s4 := mi + (":" + ss);
    s3 := hh + (":" + s4);
    s2 := dd + (" " + s3);
    s1 := mo + ("-" + s2);
    Cut(s4, mi, ':', ss);
    Cut(s3, hh, ':', s4);
    Cut(s2, dd, ' ', s3);
    Cut(s1, mo, '-', s2);
    Cut(s, y, '-', s1);
  }

  /** Where each field stands in the laid-out text. */
  lemma LayoutFields(y: string, mo: string, dd: string, hh: string, mi: string, ss: string)
    requires |y| == 4 && |mo| == 2 && |dd| == 2 && |hh| == 2 && |mi| == 2 && |ss| == 2
    ensures var s := Layout(y, mo, dd, hh, mi, ss);
      |s| == 19 && s[0..4] == y && s[5..7] == mo && s[8..10] == dd && s[11..13] == hh && s[14..16] == mi && s[17..19] == ss &&
      s[16] == ':' && s[17..] == ss
  {
    var s := Layout(y, mo, dd, hh, mi, ss);
    var s1, s2, s3, s4 := LayoutCuts(y, mo, dd, hh, mi, ss);
    Within(s, 5, s1, 2);
    Within(s, 5, s1, 3);
    Within(s, 8, s2, 2);
    Within(s, 8, s2, 3);
    Within(s, 11, s3, 2);
    Within(s, 11, s3, 3);
    Within(s, 14, s4, 2);
    Within(s, 14, s4, 3);
    assert s[0..4] == s[..4];
    assert s[17..19] == s[17..];
  }

  /** The separators stand between the fields of the laid-out text. */
  lemma LayoutSeparated(y: string, mo: string, dd: string, hh: string, mi: string, ss: string)
    requires |y| == 4 && |mo| == 2 && |dd| == 2 && |hh| == 2 && |mi| == 2 && |ss| == 2
    ensures var s := Layout(y, mo, dd, hh, mi, ss); |s| == 19 && Separated(s)
  {
    var s := Layout(y, mo, dd, hh, mi, ss);
    var s1, s2, s3, s4 := LayoutCuts(y, mo, dd, hh, mi, ss);
    Within(s, 5, s1, 3);
    Within(s, 8, s2, 3);
    Within(s, 11, s3, 3);
    Within(s, 14, s4, 2);
  }

  /** A date-time on a whole minute is written ending in `:00`. */
  lemma FormatWholeMinute(d: DateTime)
    requires IsValid(d) && d.second == 0
    ensures Format(d)[16] == ':' && Format(d)[17..] == "00"
  {
    var y, mo, dd, hh, mi, ss :=
      Padded(d.year, 4), Padded(d.month, 2), Padded(d.day, 2), Padded(d.hour, 2), Padded(d.minute, 2), Padded(d.second, 2);
    LayoutFields(y, mo, dd, hh, mi, ss);
    PaddedZero();
    assert ss == "00";
    assert Format(d) == Layout(y, mo, dd, hh, mi, ss);
  }

  lemma PaddedZero()
    ensures Padded(0, 2) == "00"
  {
    assert DigitChar(0) == '0';
    assert Padded(0, 1) == [DigitChar(0)];
    assert Padded(0, 2) == Padded(0, 1) + [DigitChar(0)];
  }

  /** Formatting loses nothing: the text reads back as the same date-time. */
  lemma FormatRoundTrip(d: DateTime)
    requires IsValid(d)
    ensures var s := Format(d);
      Separated(s) &&
      AllDigits(s[0..4]) && AllDigits(s[5..7]) && AllDigits(s[8..10]) &&
      AllDigits(s[11..13]) && AllDigits(s[14..16]) && AllDigits(s[17..19]) &&
      ParseFormatted(s) == d
  {
    var y, mo, dd, hh, mi, ss :=
      Padded(d.year, 4), Padded(d.month, 2), Padded(d.day, 2), Padded(d.hour, 2), Padded(d.minute, 2), Padded(d.second, 2);
    LayoutFields(y, mo, dd, hh, mi, ss);
    LayoutSeparated(y, mo, dd, hh, mi, ss);
  }
}
