/**
 * `extract_users`: every line of a feature section's user block that matches the user-line
 * pattern becomes an `LMUser`; the checkout time is built from the clock's year and the
 * month, day, hour and minute written on the line, and compared with the clock's time.
 */
module Users {
  import opened Wrappers
  import opened Text
  import opened Patterns
  import opened Calendar
  import opened Records
  import opened Gather

  /**
   * `\s+(.+) (.+) (.+) \(v(.+)\) \((.+)/(.+) (.+)\), start (.+) (\d+)/(\d+) (\d*):(\d*)`.
   * Items 1, 3, 5, 7, 9, 11, 13 and 15 are groups 0 to 7 (user, host, display, version,
   * server host, server port, license handle, weekday); items 17, 19, 21 and 23 are
   * groups 8 to 11 (month, day, hour, minute).
   */
  const UserLine: Pattern := [
    Run(Space, 1, true, false),
    Run(Dot, 1, true, true), Lit(" "),
    Run(Dot, 1, true, true), Lit(" "),
    Run(Dot, 1, true, true), Lit(" (v"),
    Run(Dot, 1, true, true)] + [Lit(") ("),
    Run(Dot, 1, true, true), Lit("/"),
    Run(Dot, 1, true, true), Lit(" "),
    Run(Dot, 1, true, true), Lit("), start "),
    Run(Dot, 1, true, true)] + [Lit(" "),
    Run(Digit, 1, true, true), Lit("/"),
    Run(Digit, 1, true, true), Lit(" "),
    Run(Digit, 0, true, true), Lit(":"),
    Run(Digit, 0, true, true)
  ]

  /** `re.match(pattern, line)` on a user line: the parts of its first match, if any. */
  function MatchUserLine(line: string): (r: Option<seq<string>>)
    ensures r.Some? ==> Spans(UserLine, r.value, line, 0)
  {
    Match(UserLine, line, 0)
  }

  /** Parts that the user-line pattern can be made of. */
  predicate IsUserMatch(parts: seq<string>) {
    |parts| == |UserLine| && forall i :: 0 <= i < |UserLine| ==> Admits(UserLine[i], parts[i])
  }

  lemma DigitsAdmitted(item: Item, s: string)
    requires item.Run? && item.cls == Digit && Admits(item, s)
    ensures AllDigits(s)
  {
    assert forall i :: 0 <= i < |s| ==> InClass(Digit, s[i]);
  }

  /** The largest value a C `int` holds (`INT_MAX`), the bound `datetime(...)` converts its arguments to. */
  const IntMax := 2147483647

  /** CPython's default limit on the digits `int(str)` converts (`sys.get_int_max_str_digits()`). */
  const MaxStrDigits := 4300

  /** `int(s)` on a digit string succeeds: it is not empty and not longer than the limit. */
  predicate IntReads(s: string) {
    s != [] && |s| <= MaxStrDigits
  }

  /** A digit string whose value does not fit a C `int`. */
  predicate Overflows(s: string)
    requires AllDigits(s)
  {
    DigitsValue(s) > IntMax
  }

  /**
   * `datetime(year, int(month), int(day), int(hour), int(minute))`. The four `int` calls
   * run first and raise `ValueError` for an empty field or one with too many digits;
   * `datetime` then raises `OverflowError` when a field does not fit a C `int`, and
   * `ValueError` when a field is out of its calendar range.
   */
  function Checkout(year: int, month: string, day: string, hour: string, minute: string): (r: Result<DateTime>)
    requires AllDigits(month) && AllDigits(day) && AllDigits(hour) && AllDigits(minute)
    ensures r.Ok? ==> IsValid(r.value) && r.value.year == year && r.value.second == 0
    ensures r.Ok? ==> r.value.month == DigitsValue(month) && r.value.day == DigitsValue(day) &&
                      r.value.hour == DigitsValue(hour) && r.value.minute == DigitsValue(minute)
    ensures r.Ok? <==>
      IntReads(month) && IntReads(day) && IntReads(hour) && IntReads(minute) &&
      IsValid(DateTime(year, DigitsValue(month), DigitsValue(day), DigitsValue(hour), DigitsValue(minute), 0))
    ensures r == Err(OverflowError) <==>
      IntReads(month) && IntReads(day) && IntReads(hour) && IntReads(minute) &&
      (Overflows(month) || Overflows(day) || Overflows(hour) || Overflows(minute))
    ensures r.Err? ==> r.error == ValueError || r.error == OverflowError
  {
    if !IntReads(month) || !IntReads(day) || !IntReads(hour) || !IntReads(minute) then Err(ValueError)
    else if Overflows(month) || Overflows(day) || Overflows(hour) || Overflows(minute) then Err(OverflowError)
    else
      var d := DateTime(year, DigitsValue(month), DigitsValue(day), DigitsValue(hour), DigitsValue(minute), 0);
      if IsValid(d) then Ok(d) else Err(ValueError)
  }

  /** A ten-digit month does not fit a C `int`: `datetime` raises `OverflowError`, not `ValueError`. */
  lemma HugeMonthOverflows(year: int)
    ensures Checkout(year, "9999999999", "3", "9", "15") == Err(OverflowError)
  {
    DigitsLeading("9999999999");
    assert Pow10(9) == 1000000000;
  }

  /** `round(timediff.seconds / 3600)`: the part of the delta below a day, in hours, rounded half to even. */
  function ActiveTime(delta: Delta): (h: nat)
    requires 0 <= delta.seconds < 86400
    ensures h <= 24
    ensures -1800 <= delta.seconds - 3600 * h <= 1800
  {
    RoundHours(delta.seconds)
  }

  /** `timediff.days > 0`. */
  predicate Overnight(delta: Delta) {
    delta.days > 0
  }

  /** The checkout time a matched user line gives, or the exception building it raises. */
  function CheckoutOf(parts: seq<string>, now: DateTime): (r: Result<DateTime>)
    requires IsUserMatch(parts)
    ensures r.Ok? ==> IsValid(r.value) && r.value.year == now.year && r.value.second == 0
    ensures r.Ok? ==> r.value.month == DigitsValue(parts[17]) && r.value.day == DigitsValue(parts[19]) &&
                      r.value.hour == DigitsValue(parts[21]) && r.value.minute == DigitsValue(parts[23])
    ensures r.Err? ==> r.error == ValueError || r.error == OverflowError
    ensures r.Err? <==> (!IntReads(parts[17]) || !IntReads(parts[19]) || !IntReads(parts[21]) || !IntReads(parts[23]) ||
      !IsValid(DateTime(now.year, DigitsValue(parts[17]), DigitsValue(parts[19]), DigitsValue(parts[21]), DigitsValue(parts[23]), 0)))
  {
    DigitsAdmitted(UserLine[17], parts[17]);
    DigitsAdmitted(UserLine[19], parts[19]);
    DigitsAdmitted(UserLine[21], parts[21]);
    DigitsAdmitted(UserLine[23], parts[23]);
    Checkout(now.year, parts[17], parts[19], parts[21], parts[23])
  }

  /**
   * The record of a matched user line checked out at `co`: the groups in order, the
   * checkout time formatted, `overnight` exactly when a whole day or more has passed, and
   * `active_time` the part below a day to the nearest hour.
   */
  function UserAt(parts: seq<string>, co: DateTime, stamp: string, now: DateTime): (u: User)
    requires IsValid(now) && IsValid(co) && co.second == 0 && |parts| == |UserLine|
    ensures u.userid == parts[1] && u.host == parts[3] && u.display == parts[5] &&
            u.featureVersion == parts[7] && u.serverHost == parts[9] &&
            u.serverPort == parts[11] && u.licenseHandle == parts[13]
    ensures u.updateTime == stamp
    ensures u.checkoutDatetime == Format(co)
    ensures u.checkoutDatetime[16] == ':' && u.checkoutDatetime[17..] == "00"
    ensures u.overnight == Overnight(Difference(now, co))
    ensures u.activeTime == ActiveTime(Difference(now, co))
  {
    FormatWholeMinute(co);
    var delta := Difference(now, co);
    User(parts[1], parts[3], parts[5], parts[7], parts[9], parts[11], parts[13],
         Format(co), ActiveTime(delta), Overnight(delta), stamp)
  }

  /** The record one matched user line gives, or the exception building its checkout time raises. */
  function UserOf(parts: seq<string>, stamp: string, now: DateTime): (r: Result<User>)
    requires IsValid(now) && IsUserMatch(parts)
    ensures r.Ok? <==> CheckoutOf(parts, now).Ok?
    ensures r.Ok? ==> r.value == UserAt(parts, CheckoutOf(parts, now).value, stamp, now)
    ensures r.Err? ==> r.error == CheckoutOf(parts, now).error
  {
    match CheckoutOf(parts, now)
    case Err(e) => Err(e)
    case Ok(co) => Ok(UserAt(parts, co, stamp, now))
  }

  /**
   * What the two time fields mean: `overnight` exactly when a whole day or more has passed
   * since the checkout, and `active_time` the time passed beyond whole days, to the
   * nearest hour (so at most 24).
   */
  lemma UserTimes(now: DateTime, co: DateTime)
    requires IsValid(now) && IsValid(co)
    ensures Overnight(Difference(now, co)) <==> Seconds(now) - Seconds(co) >= 86400
    ensures ActiveTime(Difference(now, co)) <= 24
    ensures -1800 <= (Seconds(now) - Seconds(co)) % 86400 - 3600 * ActiveTime(Difference(now, co)) <= 1800
  {
    var delta := Difference(now, co);
    var diff := Seconds(now) - Seconds(co);
    OvernightExact(delta, diff);
    assert delta.seconds == diff % 86400;
    var h := ActiveTime(delta);
    assert -1800 <= delta.seconds - 3600 * h <= 1800;
  }

  lemma OvernightExact(delta: Delta, diff: int)
    requires 0 <= delta.seconds < 86400 && delta.days * 86400 + delta.seconds == diff
    ensures Overnight(delta) <==> diff >= 86400
    ensures delta.seconds == diff % 86400
  {
    if delta.days > 0 {
      assert delta.days * 86400 >= 86400;
    } else {
      assert delta.days * 86400 <= 0;
    }
  }

  /**
   * Whole days do not count towards `active_time`: a day later the same checkout has the
   * same active time, and is then overnight unless it lies in the future.
   */
  lemma ActiveTimeIgnoresDays(now: DateTime, co: DateTime)
    requires IsValid(now) && IsValid(co) && now.year < 9999
    ensures IsValid(NextDay(now))
    ensures ActiveTime(Difference(NextDay(now), co)) == ActiveTime(Difference(now, co))
    ensures Overnight(Difference(NextDay(now), co)) <==> Seconds(now) >= Seconds(co)
  {
    OrdinalNextDay(now);
    var d0, d1 := Difference(now, co), Difference(NextDay(now), co);
    OvernightExact(d0, Seconds(now) - Seconds(co));
    OvernightExact(d1, Seconds(NextDay(now)) - Seconds(co));
    assert (Seconds(now) - Seconds(co) + 86400) % 86400 == (Seconds(now) - Seconds(co)) % 86400;
  }

  /** The overnight boundary: 23 hours 59 minutes is not overnight, 24 hours 1 minute is. */
  lemma OvernightBoundary()
    ensures var co := DateTime(2024, 6, 2, 9, 15, 0);
      IsValid(co) &&
      !Overnight(Difference(DateTime(2024, 6, 3, 9, 14, 0), co)) &&
      ActiveTime(Difference(DateTime(2024, 6, 3, 9, 14, 0), co)) == 24 &&
      Overnight(Difference(DateTime(2024, 6, 3, 9, 16, 0), co)) &&
      ActiveTime(Difference(DateTime(2024, 6, 3, 9, 16, 0), co)) == 0
  {
    var co := DateTime(2024, 6, 2, 9, 15, 0);
    OrdinalNextDay(co);
    assert NextDay(co) == DateTime(2024, 6, 3, 9, 15, 0);
    assert Seconds(DateTime(2024, 6, 3, 9, 14, 0)) == Seconds(NextDay(co)) - 60;
    assert Seconds(DateTime(2024, 6, 3, 9, 16, 0)) == Seconds(NextDay(co)) + 60;
  }

  /**
   * The year on a checkout is the clock's, as written: a license checked out on
   * 31 December and seen on 1 January is dated in the future, so it is not overnight.
   */
  lemma YearBoundary()
    ensures var now := DateTime(2025, 1, 1, 0, 30, 0);
      var co := DateTime(now.year, 12, 31, 23, 30, 0);
      IsValid(co) && Difference(now, co).days < 0 && !Overnight(Difference(now, co))
  {
    var now := DateTime(2025, 1, 1, 0, 30, 0);
    var co := DateTime(2025, 12, 31, 23, 30, 0);
    assert Ordinal(co) - Ordinal(now) == 364 by {
      assert DaysBeforeMonth(2025, 12) == 334;
    }
  }

  /**
   * A line is read only when it has `), start ` in it: a user line written without the
   * comma after the license handle gives no record.
   */
  lemma UserLineNeedsComma(line: string)
    requires Count(line, ',') == 0
    ensures MatchUserLine(line).None?
  {
    UserLineItems();
    LiteralCountAt(UserLine, 14, ',');
    assert Count(UserLine[14].text, ',') >= 1 by {
      assert UserLine[14].text[1] == ',';
      CountAt(UserLine[14].text, 1, ',');
    }
    TooFewForLiterals(UserLine, line, ',');
  }

  // ---------------------------------------------------------------------------
  // The loop over the lines

  /** What one line gives: nothing when it does not match, else its record or its error. */
  function LineOutcome(line: string, stamp: string, now: DateTime): Option<Result<User>>
    requires IsValid(now)
  {
    match MatchUserLine(line)
    case None => None
    case Some(parts) => Some(UserOf(parts, stamp, now))
  }

  /** The outcome of each line, in order. */
  function Outcomes(lines: seq<string>, stamp: string, now: DateTime): (outs: seq<Option<Result<User>>>)
    requires IsValid(now)
    ensures |outs| == |lines|
  {
    seq(|lines|, i requires 0 <= i < |lines| => LineOutcome(lines[i], stamp, now))
  }

  /**
   * What `extract_users(lines, stamp)` returns: one record per matching line, in order;
   * non-matching lines are skipped; the first `ValueError` ends the call.
   */
  function UsersOf(lines: seq<string>, stamp: string, now: DateTime): (r: Result<seq<User>>)
    requires IsValid(now)
    ensures r.Ok? ==> |r.value| <= |lines|
  {
    Collect(Outcomes(lines, stamp, now))
  }

  /** `extract_users`: the for-loop that appends one record per matching line. */
  method ExtractUsers(lines: seq<string>, stamp: string, now: DateTime) returns (r: Result<seq<User>>)
    requires IsValid(now)
    ensures r == UsersOf(lines, stamp, now)
  {
    ghost var outs := Outcomes(lines, stamp, now);
    var users: seq<User> := [];
    var i := 0;
    while i < |lines|
      invariant 0 <= i <= |lines|
      invariant Collect(outs) == Prepend(users, Collect(outs[i..]))
    {
      CollectFrom(outs, i);
      assert outs[i] == LineOutcome(lines[i], stamp, now);
      var m := MatchUserLine(lines[i]);
      if m.Some? {
        var u := UserOf(m.value, stamp, now);
        if u.Err? {
          assert Collect(outs[i..]) == Err(u.error);
          return Err(u.error);
        }
        PrependAssoc(users, u.value, Collect(outs[i + 1..]));
        users := users + [u.value];
      }
      i := i + 1;
    }
    assert outs[i..] == [];
    assert users + [] == users;
    r := Ok(users);
  }

  /**
   * `extract_users` returns the records of the matching lines, in order, one per line,
   * and from no other line; `idx` lists the lines they come from.
   */
  lemma UsersFromLines(lines: seq<string>, stamp: string, now: DateTime) returns (idx: seq<nat>)
    requires IsValid(now)
    ensures UsersOf(lines, stamp, now).Ok? ==>
      var us := UsersOf(lines, stamp, now).value;
      |idx| == |us| &&
      (forall k :: 0 <= k < |idx| ==> idx[k] < |lines| && LineOutcome(lines[idx[k]], stamp, now) == Some(Ok(us[k]))) &&
      Increasing(idx) &&
      (forall i :: 0 <= i < |lines| && MatchUserLine(lines[i]).Some? ==> i in idx)
  {
    var outs := Outcomes(lines, stamp, now);
    idx := CollectIndices(outs);
    assert forall i :: 0 <= i < |lines| ==> outs[i] == LineOutcome(lines[i], stamp, now);
  }

  /**
   * Every user `extract_users` returns carries the stamp it was given, an active time of at
   * most 24 hours, and a checkout time on a whole minute.
   */
  lemma UsersStamped(lines: seq<string>, stamp: string, now: DateTime)
    requires IsValid(now) && UsersOf(lines, stamp, now).Ok?
    ensures forall u :: u in UsersOf(lines, stamp, now).value ==>
      u.updateTime == stamp && u.activeTime <= 24 && |u.checkoutDatetime| == 19 &&
      u.checkoutDatetime[16] == ':' && u.checkoutDatetime[17..] == "00"
  {
    var idx := UsersFromLines(lines, stamp, now);
    var us := UsersOf(lines, stamp, now).value;
    forall u | u in us
      ensures u.updateTime == stamp && u.activeTime <= 24 && |u.checkoutDatetime| == 19 &&
        u.checkoutDatetime[16] == ':' && u.checkoutDatetime[17..] == "00"
    {
      var k :| 0 <= k < |us| && us[k] == u;
      var parts := MatchUserLine(lines[idx[k]]).value;
      assert UserOf(parts, stamp, now) == Ok(u);
    }
  }

  /**
   * `extract_users` raises exactly when some matching line has no valid checkout time, and
   * then raises what building the first such checkout raises (`ValueError` or
   * `OverflowError`); nothing else makes it fail.
   */
  lemma UsersFail(lines: seq<string>, stamp: string, now: DateTime)
    requires IsValid(now)
    ensures UsersOf(lines, stamp, now).Err? ==>
      UsersOf(lines, stamp, now).error == ValueError || UsersOf(lines, stamp, now).error == OverflowError
    ensures UsersOf(lines, stamp, now).Err? <==>
      exists i :: 0 <= i < |lines| && MatchUserLine(lines[i]).Some? &&
        CheckoutOf(MatchUserLine(lines[i]).value, now).Err?
    ensures UsersOf(lines, stamp, now).Err? ==>
      exists i :: 0 <= i < |lines| && MatchUserLine(lines[i]).Some? &&
        CheckoutOf(MatchUserLine(lines[i]).value, now) == Err(UsersOf(lines, stamp, now).error) &&
        forall j :: 0 <= j < i && MatchUserLine(lines[j]).Some? ==> CheckoutOf(MatchUserLine(lines[j]).value, now).Ok?
  {
    var outs := Outcomes(lines, stamp, now);
    CollectFails(outs);
    forall i | 0 <= i < |lines|
      ensures (outs[i].Some? && outs[i].value.Err?) <==>
        (MatchUserLine(lines[i]).Some? && CheckoutOf(MatchUserLine(lines[i]).value, now).Err?)
      ensures outs[i].Some? && outs[i].value.Err? ==>
        outs[i].value.error == ValueError || outs[i].value.error == OverflowError
      ensures outs[i].Some? && outs[i].value.Err? ==> CheckoutOf(MatchUserLine(lines[i]).value, now) == Err(outs[i].value.error)
    {
      assert outs[i] == LineOutcome(lines[i], stamp, now);
    }
  }

  // ---------------------------------------------------------------------------
  // Reading a user line back

  /** The fields of a user line, with the white space that indents it. */
  datatype UserLineFields = UserLineFields(
    indent: string, userid: string, host: string, display: string, version: string,
    serverHost: string, serverPort: string, handle: string, weekday: string,
    month: string, day: string, hour: string, minute: string)

  /** The parts of the user line written from `f`, in pattern order. */
  function UserParts(f: UserLineFields): (parts: seq<string>)
    ensures |parts| == |UserLine|
  {
    [f.indent, f.userid, " ", f.host, " ", f.display, " (v", f.version] +
    [") (", f.serverHost, "/", f.serverPort, " ", f.handle, "), start ", f.weekday] +
    [" ", f.month, "/", f.day, " ", f.hour, ":", f.minute]
  }

  /** A field that reads back as itself: not empty, and without white space. */
  predicate IsWord(s: string) {
    s != [] && forall i :: 0 <= i < |s| ==> !IsWhitespace(s[i])
  }

  /**
   * Fields that the pattern reads back unchanged from the line written with them, followed
   * by `rest`: words without white space (the server port also without `/`), a non-empty
   * month and day, digits for the times, and a `rest` with no space that does not go on
   * with a digit.
   */
  predicate Readable(f: UserLineFields, rest: string) {
    f.indent != [] && (forall i :: 0 <= i < |f.indent| ==> IsWhitespace(f.indent[i])) &&
    IsWord(f.userid) && IsWord(f.host) && IsWord(f.display) && IsWord(f.version) &&
    IsWord(f.serverHost) && IsWord(f.serverPort) && IsWord(f.handle) && IsWord(f.weekday) &&
    (forall i :: 0 <= i < |f.serverPort| ==> f.serverPort[i] != '/') &&
    f.month != [] && AllDigits(f.month) && f.day != [] && AllDigits(f.day) &&
    AllDigits(f.hour) && AllDigits(f.minute) &&
    (forall i :: 0 <= i < |rest| ==> rest[i] != ' ') &&
    (rest != [] ==> !IsDigit(rest[0]))
  }

  lemma WordHasNoSpace(s: string)
    requires IsWord(s)
    ensures Count(s, ' ') == 0 && AllIn(Dot, s)
  {
    CountNone(s, ' ');
  }

  lemma DigitsHaveNoSpace(s: string)
    requires AllDigits(s)
    ensures Count(s, ' ') == 0 && AllIn(Digit, s)
  {
    CountNone(s, ' ');
  }

  /**
   * `Readable`, stated on the parts of the line: each literal item holds its text, and each
   * run item holds a field of the kind `Readable` asks for.
   */
  predicate PartsReadable(p: Pattern, P: seq<string>, rest: string) {
    |P| == |p| == 24 &&
    (forall j :: 0 <= j < |p| && p[j].Lit? ==> P[j] == p[j].text) &&
    P[0] != [] && AllIn(Space, P[0]) &&
    IsWord(P[1]) && IsWord(P[3]) && IsWord(P[5]) && IsWord(P[7]) &&
    IsWord(P[9]) && IsWord(P[11]) && IsWord(P[13]) && IsWord(P[15]) &&
    (forall i :: 0 <= i < |P[11]| ==> P[11][i] != '/') &&
    P[17] != [] && AllDigits(P[17]) && P[19] != [] && AllDigits(P[19]) &&
    AllDigits(P[21]) && AllDigits(P[23]) &&
    (forall i :: 0 <= i < |rest| ==> rest[i] != ' ') &&
    (rest != [] ==> !IsDigit(rest[0]))
  }

  lemma ReadableParts(p: Pattern, f: UserLineFields, rest: string)
    requires UserItems(p) && Readable(f, rest)
    ensures PartsReadable(p, UserParts(f), rest)
  {
    var P := UserParts(f);
    forall j | 0 <= j < |p| && p[j].Lit? ensures P[j] == p[j].text {
      ItemsAtEven(p, j);
    }
  }

  /**
   * `p` holds the items of the user line, written out one by one. The walk below runs on
   * such a `p` rather than on the constant itself, which keeps the solver from evaluating
   * sums over the constant.
   */
  predicate UserItems(p: Pattern) {
    |p| == 24 && p[0] == Run(Space, 1, true, false) &&
    p[1] == Run(Dot, 1, true, true) && p[2] == Lit(" ") &&
    p[3] == Run(Dot, 1, true, true) && p[4] == Lit(" ") &&
    p[5] == Run(Dot, 1, true, true) && p[6] == Lit(" (v") &&
    p[7] == Run(Dot, 1, true, true) && p[8] == Lit(") (") &&
    p[9] == Run(Dot, 1, true, true) && p[10] == Lit("/") &&
    p[11] == Run(Dot, 1, true, true) && p[12] == Lit(" ") &&
    p[13] == Run(Dot, 1, true, true) && p[14] == Lit("), start ") &&
    p[15] == Run(Dot, 1, true, true) && p[16] == Lit(" ") &&
    p[17] == Run(Digit, 1, true, true) && p[18] == Lit("/") &&
    p[19] == Run(Digit, 1, true, true) && p[20] == Lit(" ") &&
    p[21] == Run(Digit, 0, true, true) && p[22] == Lit(":") &&
    p[23] == Run(Digit, 0, true, true)
  }

  lemma UserLineItems()
    ensures UserItems(UserLine)
  {
  }

  /** In such a `p` the literals sit at the even items from 2 on; every other item is a greedy run. */
  lemma ItemsAtEven(p: Pattern, j: nat)
    requires UserItems(p) && j < |p|
    ensures p[j].Lit? <==> 2 <= j && j % 2 == 0
    ensures !p[j].Lit? ==> p[j].Run? && p[j].greedy
  {
  }

  /** Item `j` of the user line takes exactly its part (and the spaces after item `j` are the literals'). */
  lemma {:induction false} PartsItemsFrom(p: Pattern, P: seq<string>, rest: string, j: nat)
    requires UserItems(p) && PartsReadable(p, P, rest) && j <= |p|
    ensures j >= 1 ==> Count(LayOut(P[j..], rest), ' ') <= LiteralCount(p[j..], ' ')
    ensures ItemsNotBetter(p[j..], P[j..], LayOut(P[j..], rest))
    decreases |p| - j
  {
    if j == |p| {
      CountNone(rest, ' ');
      CountDone(p, P, rest, ' ');
      ItemsDone(p, P, rest);
    } else {
      PartsItemsFrom(p, P, rest, j + 1);
      ItemsAtEven(p, j);
      if p[j].Lit? {
        LiteralItem(p, P, j, rest, ' ');
      } else if j == 0 {
        LayOutStep(P, 0, rest);
        LayOutStep(P, 1, rest);
        assert p[0..] == p && P[0..] == P;
        GreedyBeforeOther(p, P[0], LayOut(P[1..], rest));
      } else if j <= 7 {
        LeadingItem(p, P, rest, j);
      } else if j == 9 {
        ServerHostItem(p, P, rest);
      } else if j == 13 {
        HandleItem(p, P, rest);
      } else if j <= 15 {
        ServerItem(p, P, rest, j);
      } else {
        NumberItem(p, P, rest, j);
      }
      ItemsStep(p, P, j, rest);
    }
  }

  /** The user, the host, the display and the version. */
  lemma LeadingItem(p: Pattern, P: seq<string>, rest: string, j: nat)
    requires UserItems(p) && PartsReadable(p, P, rest) && (j == 1 || j == 3 || j == 5 || j == 7)
    requires Count(LayOut(P[j + 1..], rest), ' ') <= LiteralCount(p[j + 1..], ' ')
    ensures Count(LayOut(P[j..], rest), ' ') <= LiteralCount(p[j..], ' ')
    ensures FirstNotBetter(p[j..], P[j], LayOut(P[j..], rest))
  {
    WordHasNoSpace(P[j]);
    var next := j + 1;
    assert P[next] == p[next].text;
    RunBeforeLiteralItem(p, P, j, rest, ' ', if j == 7 then 1 else 0);
  }

  /** The server host, which ends at the `/` before the server port. */
  lemma ServerHostItem(p: Pattern, P: seq<string>, rest: string)
    requires UserItems(p) && PartsReadable(p, P, rest)
    requires Count(LayOut(P[10..], rest), ' ') <= LiteralCount(p[10..], ' ')
    ensures Count(LayOut(P[9..], rest), ' ') <= LiteralCount(p[9..], ' ')
    ensures FirstNotBetter(p[9..], P[9], LayOut(P[9..], rest))
  {
    WordHasNoSpace(P[9]);
    assert P[10] == p[10].text && P[12] == p[12].text;
    RunBeforeSeparatorItem(p, P, 9, rest, ' ');
  }

  /** The server port and the weekday, each followed by a space. */
  lemma ServerItem(p: Pattern, P: seq<string>, rest: string, j: nat)
    requires UserItems(p) && PartsReadable(p, P, rest) && (j == 11 || j == 15)
    requires Count(LayOut(P[j + 1..], rest), ' ') <= LiteralCount(p[j + 1..], ' ')
    ensures Count(LayOut(P[j..], rest), ' ') <= LiteralCount(p[j..], ' ')
    ensures FirstNotBetter(p[j..], P[j], LayOut(P[j..], rest))
  {
    WordHasNoSpace(P[j]);
    var next := j + 1;
    assert P[next] == p[next].text;
    RunBeforeLiteralItem(p, P, j, rest, ' ', 0);
  }

  /** The license handle, which ends at the `), start ` after it. */
  lemma HandleItem(p: Pattern, P: seq<string>, rest: string)
    requires UserItems(p) && PartsReadable(p, P, rest)
    requires Count(LayOut(P[14..], rest), ' ') <= LiteralCount(p[14..], ' ')
    ensures Count(LayOut(P[13..], rest), ' ') <= LiteralCount(p[13..], ' ')
    ensures FirstNotBetter(p[13..], P[13], LayOut(P[13..], rest))
  {
    WordHasNoSpace(P[13]);
    var lit := p[14].text;
    assert lit == "), start ";
    assert P[14] == lit && lit[2] == ' ';
    assert NoRepeatBefore(lit, 2) by {
      assert lit[0] == ')' && lit[1] == ',' && lit[2] == ' ';
    }
    RunBeforeLiteralItem(p, P, 13, rest, ' ', 2);
  }

  /** The month, the day, the hour and the minute. */
  lemma NumberItem(p: Pattern, P: seq<string>, rest: string, j: nat)
    requires UserItems(p) && PartsReadable(p, P, rest) && (j == 17 || j == 19 || j == 21 || j == 23)
    requires Count(LayOut(P[j + 1..], rest), ' ') <= LiteralCount(p[j + 1..], ' ')
    ensures Count(LayOut(P[j..], rest), ' ') <= LiteralCount(p[j..], ' ')
    ensures FirstNotBetter(p[j..], P[j], LayOut(P[j..], rest))
  {
    DigitsHaveNoSpace(P[j]);
    if j < 23 {
      var next := j + 1;
      assert P[next] == p[next].text;
    }
    RunBeforeOtherItem(p, P, j, rest, ' ');
  }

  /** The walk from the first item, on the user-line constant itself. */
  lemma PartsNotBetter(P: seq<string>, rest: string)
    requires UserItems(UserLine) && PartsReadable(UserLine, P, rest)
    ensures ItemsNotBetter(UserLine, P, LayOut(P, rest))
  {
    PartsItemsFrom(UserLine, P, rest, 0);
    assert UserLine[0..] == UserLine && P[0..] == P;
  }

  /** Every part of a readable line is one its item admits. */
  lemma PartsAdmitted(p: Pattern, P: seq<string>, rest: string)
    requires UserItems(p) && PartsReadable(p, P, rest)
    ensures forall i :: 0 <= i < |p| ==> Admits(p[i], P[i])
  {
    forall i | 0 <= i < |p| ensures Admits(p[i], P[i]) {
      ItemsAtEven(p, i);
      if i % 2 == 1 && i < 17 {
        WordHasNoSpace(P[i]);
      } else if i % 2 == 1 {
        DigitsHaveNoSpace(P[i]);
      }
    }
  }

  /**
   * The round trip of the user-line pattern: the line written from readable fields, and
   * followed by text with no space that does not start with a digit, is matched with every
   * field read back as written.
   */
  lemma UserLineRoundTrip(f: UserLineFields, rest: string)
    requires Readable(f, rest)
    ensures MatchUserLine(LayOut(UserParts(f), rest)) == Some(UserParts(f))
  {
    var P := UserParts(f);
    UserLineItems();
    ReadableParts(UserLine, f, rest);
    PartsNotBetter(P, rest);
    PartsAdmitted(UserLine, P, rest);
    MatchLaidOut(UserLine, P, rest);
  }
}
