# logLicenseUsage parser, modelled in Dafny

`logLicenseUsage.py` reads the output of FlexNet's `lmutil lmstat -a -i` for an Autodesk
license server and logs license usage. This project models the parser at its centre:

- **The report driver.** It cuts the status report at every `Users of `, drops the server
  part in front, and cuts the last section at `NOTE:`. It then reads every section with
  `extract_feature` and keeps each `LMFeature` in report order.
- **`extract_feature`.** It keeps the non-empty `\r\n`-separated lines of a section and matches
  the feature header `<name>_<code>F:  (Total of N licenses issued;  Total of M licenses in use)`.
  Which version, vendor and license-type lines it reads depends on the `lmutil` dialect
  (`'2017'`, `'2015'` or anything else). The lines from index 4 on go to `extract_users`.
- **`extract_users`.** It matches each user line and builds its `LMUser`. The checkout
  date-time takes the year from the clock and the month, day, hour and minute from the line.
  `active_time` and `overnight` come from the time elapsed since the checkout.

The model has these modules:

- `Wrappers`: `Option` and `Result`. `IndexError`, `ValueError` and `OverflowError` are the
  exceptions the parser can raise.
- `Records`: `LMUser` and `LMFeature`.
- `Text`: `str.split` and `str.join`.
- `Calendar`: the part of `datetime` that is used, as exact integer arithmetic on the proleptic
  Gregorian calendar. A `timedelta` is normalised as Python does.
- `Patterns`: a backtracking matcher for the linear regular expressions the parser uses, with
  literals, greedy and lazy character-class runs, and one optional lazy group.
  - `MatchBest` proves the matcher complete, and proves that it returns the first
    decomposition Python's `re.match` reaches.
  - The round-trip lemmas of each pattern rest on this.
- `Gather`: the for-loop shape shared by `extract_users` and the driver. A `None` is
  skipped, a record is appended, and the first exception ends the loop.
- `Users`, `Features` and `Report`: the three parts above.
  - Each part has a specification function: `UsersOf`, `FeatureOf` and `ReportOf`.
  - Each loop is a method proved equal to its specification function: `ExtractUsers`,
    `ExtractFeature` and `ParseReport`.

Behaviours of the source worth noting:

- A header with nothing between `_` and `F:` (`ACAD_F:  (...)`) skips the optional code group,
  so its section gives no record rather than a feature coded `ACAD_F`.
- A user line needs `), start ` with a comma (`UserLineNeedsComma`). A line written without
  the comma is never read.
- A report without `Users of ` raises `IndexError` at the assignment to `features_data[-1]`.
  It does not give an empty list.
- In the `2015` dialect, the line at index 3 is never read.
- An empty report is neither parsed nor written; `ReportOf` gives `None`.
- A checkout field too large for a C `int` makes `datetime` raise `OverflowError`
  (`HugeMonthOverflows`). A field of more than 4300 digits makes `int` raise `ValueError`
  first; 4300 is the default limit on the digits `int(str)` converts in current CPython
  (3.11 on, and the 3.7 to 3.10 security releases from September 2022).
- The checkout year is always the clock's year (`YearBoundary`). A license checked out on
  31 December and seen on 1 January is dated almost a year in the future, so it is never
  `overnight`.

## Model

| member | source | states |
|---|---|---|
| Text.Split | logLicenseUsage.py:75 | `str.split` on a non-empty separator gives at least one piece, and no piece holds the separator |
| Text.SplitJoin | logLicenseUsage.py:75 | joining the pieces of a split with the separator gives back the text |
| Text.SplitCount | logLicenseUsage.py:213-216 | a split gives more than one piece exactly when the text holds the separator |
| Text.SplitHead | logLicenseUsage.py:216 | `s.split(sep)[0]` is a prefix of `s`; it is followed by `sep` when `s` holds `sep`, and it is all of `s` otherwise |
| Text.SplitJoinPieces | logLicenseUsage.py:75 | pieces without the separator, joined and split again, come back unchanged when the separator's first character does not recur in it |
| Calendar.IsValid | logLicenseUsage.py:48-52 | no contract of its own (a predicate): the fields `datetime(...)` accepts without `ValueError`; `Users.Checkout` states that a checkout builds exactly when its fields meet it |
| Calendar.OrdinalNextDay | logLicenseUsage.py:48-53 | the day count is a calendar count: the next day has the next ordinal and is 86400 seconds later |
| Calendar.Difference | logLicenseUsage.py:53 | `now - co` as a `timedelta`: `seconds` lies in 0..86399 and `days * 86400 + seconds` is the exact difference in seconds |
| Calendar.RoundHours | logLicenseUsage.py:63 | `round(seconds / 3600)` is within half an hour of `seconds`, and a tie goes to the even hour |
| Calendar.RoundHoursUnique | logLicenseUsage.py:63 | only one whole number of hours meets both conditions, so they define Python's rounding |
| Calendar.FormatWholeMinute | logLicenseUsage.py:61-62 | a checkout on a whole minute is formatted with `:00` seconds |
| Calendar.FormatRoundTrip | logLicenseUsage.py:61-62 | `%Y-%m-%d %H:%M:%S` loses nothing: the 19-character text has `-`, `-`, ` `, `:`, `:` at positions 4, 7, 10, 13 and 16, digit fields between them, and reads back as the same date-time |
| Calendar.Format | logLicenseUsage.py:61-62 | `strftime('%Y-%m-%d %H:%M:%S')` of a valid date-time has 19 characters; `Calendar.FormatRoundTrip` states its separators, its digit fields and that it loses nothing |
| Patterns.Match | logLicenseUsage.py:45-46 | any match found is a decomposition of a prefix of the text, each part admitted by its item |
| Patterns.MatchBest | logLicenseUsage.py:45-46 | completeness and priority: when a decomposition exists, a match is found, and it is that decomposition or one the backtracking search reaches first |
| Patterns.MatchIs | logLicenseUsage.py:80-83 | a decomposition that nothing is reached before is exactly the match `re.match` returns |
| Patterns.OptimalByItems | logLicenseUsage.py:80-83 | whether a decomposition is reached first is decided item by item, front to back |
| Patterns.TooFewForLiterals | logLicenseUsage.py:45-46 | a text with fewer occurrences of a character than the pattern's literals hold does not match |
| Patterns.MatchByItems | logLicenseUsage.py:96 | the round trip of a pattern: parts admitted by their items, where no item could start with a length tried earlier, are read back from their lay-out |
| Gather.Collect | logLicenseUsage.py:43-70 | a loop over outcomes keeps at most one record per item |
| Gather.CollectIndices | logLicenseUsage.py:43-47 | the records kept are the items' records in item order, and every item that gives one is kept |
| Gather.CollectFails | logLicenseUsage.py:48-53 | the loop fails exactly when some item raises, and with the first item's exception |
| Gather.KeptIndices | logLicenseUsage.py:219-224 | of optional results, the records kept are the non-`None` ones in order, and no result raised |
| Gather.KeptFails | logLicenseUsage.py:219-222 | keeping optional results fails exactly when one raises, with the first exception |
| Users.MatchUserLine | logLicenseUsage.py:45-46 | the user-line match decomposes the line into the 24 items of the pattern |
| Users.UserLineNeedsComma | logLicenseUsage.py:45-46 | a line without a comma does not match, so a user line lacking `), start ` gives no record |
| Users.UserLineRoundTrip | logLicenseUsage.py:45-46 | a user line written from a white-space indent, non-empty fields without white space, a server port without `/`, digit strings for the date and time (month and day non-empty), and followed by text with no space that does not start with a digit, is matched with every field read back as written |
| Users.Checkout | logLicenseUsage.py:48-52 | `datetime(year, int(...), ...)` succeeds with those fields and zero seconds exactly when every field is non-empty, has at most 4300 digits and forms a valid date; `OverflowError` exactly when all four convert but one exceeds 2147483647; `ValueError` otherwise |
| Users.HugeMonthOverflows | logLicenseUsage.py:46-50 | a month of `9999999999` makes `datetime` raise `OverflowError`, not `ValueError` |
| Users.CheckoutOf | logLicenseUsage.py:48-52 | the checkout of a matched line is in the clock's year with groups 8 to 11 as month, day, hour and minute; an exception (`ValueError` or `OverflowError`) exactly when a field is empty or over 4300 digits or the date is invalid |
| Users.ActiveTime | logLicenseUsage.py:63 | `active_time` is at most 24 and within half an hour of the part of the delta below a day |
| Users.Overnight | logLicenseUsage.py:64 | no contract of its own (a predicate): `timediff.days > 0`; `Users.UserTimes` and `Users.OvernightExact` state that it holds exactly when a whole day or more has passed |
| Users.UserAt | logLicenseUsage.py:54-67 | the record holds groups 0 to 6 in order, the formatted checkout ending in `:00`, the stamp, and the overnight and active-time values of `now - checkout` |
| Users.UserOf | logLicenseUsage.py:47-67 | a matched line gives its record exactly when its checkout can be built, and otherwise raises what building the checkout raises |
| Users.UserTimes | logLicenseUsage.py:53-64 | `overnight` holds exactly when a whole day or more has passed; `active_time` is the rest of the elapsed time, below a day, to the nearest hour |
| Users.OvernightExact | logLicenseUsage.py:64 | `timediff.days > 0` exactly when the difference is at least 86400 seconds, and `timediff.seconds` is the difference modulo a day |
| Users.ActiveTimeIgnoresDays | logLicenseUsage.py:63-64 | a day later the same checkout has the same active time, and is overnight unless it lies in the future |
| Users.OvernightBoundary | logLicenseUsage.py:63-64 | 23 h 59 min after checkout is not overnight (active 24 h); 24 h 1 min after is overnight (active 0 h) |
| Users.YearBoundary | logLicenseUsage.py:48 | a checkout written as 31 December and seen on 1 January is dated in the clock's year, lies in the future, and is not overnight |
| Users.UsersOf | logLicenseUsage.py:42-70 | `extract_users` returns no more records than lines |
| Users.ExtractUsers | logLicenseUsage.py:42-70 | the for-loop with `append` returns exactly `UsersOf`: the records of the matching lines or the first exception |
| Users.UsersFromLines | logLicenseUsage.py:43-54 | one record per matching line, in line order, from no other line |
| Users.UsersStamped | logLicenseUsage.py:61-65 | every record carries the passed-in stamp, an active time of at most 24, and a 19-character checkout ending in `:00` |
| Users.UsersFail | logLicenseUsage.py:42-52 | `extract_users` raises exactly when a matching line's checkout cannot be built, and then raises the first such line's exception, `ValueError` or `OverflowError` |
| Features.FeatureOf | logLicenseUsage.py:73-128 | no contract of its own: `extract_feature` is `Section` on the non-empty lines of the chunk; `Features.ExtractFeature` is proved equal to it |
| Features.Section | logLicenseUsage.py:79-128 | no contract of its own: what it gives is stated by `Features.FeatureOutcomes`, `Features.FeatureHeader`, `Features.FeatureMetadata`, `Features.Section2017`, `Features.Section2015` and `Features.NoCodeNoFeature` |
| Features.Metadata | logLicenseUsage.py:94-116 | `IndexError` exactly when the `2017` dialect has fewer than 4 lines or the `2015` dialect fewer than 3; a vendor is read only in the `2017` dialect, and a license type only in one of the two dialects |
| Features.Capture | logLicenseUsage.py:96-99 | a group is captured exactly when the line matches, and the text captured is admitted by its item |
| Features.ExtractFeature | logLicenseUsage.py:73-128 | the line-gathering loop and the branches return exactly `FeatureOf` |
| Features.NonEmpty | logLicenseUsage.py:74-77 | the gathered lines are no more than the pieces, and each is non-empty and one of the pieces; `Features.NonEmptyAppend` and `Features.NonEmptySingle` state that every non-empty piece is kept once and in order |
| Features.NonEmptySnoc | logLicenseUsage.py:74-77 | each loop step appends the line exactly when it is not empty |
| Features.LinesOfJoin | logLicenseUsage.py:74-77 | lines without `\r\n`, joined with `\r\n`, gather to exactly the non-empty ones; with no blank line, to the lines themselves |
| Features.NonEmptyAppend | logLicenseUsage.py:74-77 | the gathered lines of two blocks are the gathered lines of each, in order: nothing is lost, repeated or reordered |
| Features.NonEmptySingle | logLicenseUsage.py:76-77 | one line is kept exactly when it is not empty |
| Features.BlankLinesDropped | logLicenseUsage.py:74-77 | a blank line between two blocks of lines is dropped and both blocks are kept whole and in order |
| Features.NonEmptyKeeps | logLicenseUsage.py:76-77 | the loop drops nothing when no line is empty |
| Features.HeaderNameBeforeUnderscore | logLicenseUsage.py:80-87 | the lazy name group is non-empty, starts the line, is followed by `_`, and holds no `_` after its first character |
| Features.HeaderNeedsUnderscore | logLicenseUsage.py:80-84 | a first line without `_` is not a feature header |
| Features.HeaderGroups | logLicenseUsage.py:80-89 | a header match gives the name before the first `_` and two non-empty digit counts |
| Features.HeaderRoundTrip | logLicenseUsage.py:80-89 | a header written from a name without `_`, a code without `F` (possibly empty), digit counts and `s` plurals is matched with every group read back |
| Features.VersionRoundTrip | logLicenseUsage.py:96-99 | the version line's lazy group is read back as the version written before `, vendor: ` |
| Features.VendorRoundTrip | logLicenseUsage.py:103-105 | the greedy vendor group is the rest of the line after `vendor_string: ` |
| Features.LicenseRoundTrip | logLicenseUsage.py:108-116 | the lazy license-type group runs up to the first ` license` after the indent |
| Features.FeatureOutcomes | logLicenseUsage.py:75-119 | `None` exactly when the first line is not a header with a code; `IndexError` exactly for a blank section or a dialect that reads past the last line; otherwise an exception exactly when the users fail, and then the users' exception |
| Features.FeatureIsHeader | logLicenseUsage.py:85-122 | name and code are groups 0 and 1 of the header, and the code is not empty |
| Features.FeatureHeader | logLicenseUsage.py:84-128 | name before the first `_`, non-empty code, and `issued` and `used` are the header's digit strings, never `--` |
| Features.FeatureMetadata | logLicenseUsage.py:91-128 | version only from line 1; vendor only from line 2 in `2017`; license type from line 3 in `2017` and line 2 in `2015`; `--` where unread or unmatched; users only from index 4 on |
| Features.Section2017 | logLicenseUsage.py:94-128 | a `2017` section written from readable fields reads back as the record holding every field and the users of its user lines |
| Features.Section2015 | logLicenseUsage.py:112-128 | a `2015` section reads back with the license type from line 2 and vendor `--`; line 3 is never read |
| Features.NoCodeNoFeature | logLicenseUsage.py:84-86 | a header with nothing between `_` and `F:` gives no record in any dialect |
| Report.ReportOf | logLicenseUsage.py:209-224 | no contract of its own: `Report.ParseReport` is proved equal to it, and `Report.SectionFeatures`, `Report.SectionFails` and `Report.ReportWithoutSections` state what it gives |
| Report.Chunks | logLicenseUsage.py:213-216 | no contract of its own: `Report.ChunksOfReport` and `Report.ChunksRoundTrip` state which sections it cuts |
| Report.Sections | logLicenseUsage.py:214-216 | no contract of its own: the sections from the split pieces, stated through `Report.ChunksOfReport` and `Report.ChunksRoundTrip` |
| Report.ParseReport | logLicenseUsage.py:209-224 | the split, `pop(0)`, `[-1]` assignment and append loop return exactly `ReportOf` |
| Report.ChunksOfReport | logLicenseUsage.py:213-216 | sections exist exactly when the report holds `Users of `; they are the pieces after the first, the last cut before its first `NOTE:`; none holds `Users of ` |
| Report.ChunksRoundTrip | logLicenseUsage.py:213-216 | server text, `Users of `-joined sections and an optional `NOTE:` trailer give back exactly those sections |
| Report.CutAtNote | logLicenseUsage.py:216 | cutting at `NOTE:` removes exactly a trailer that starts with `NOTE:` |
| Report.ReportWithoutSections | logLicenseUsage.py:210-216 | an empty report is not parsed; a non-empty report without `Users of ` raises `IndexError` |
| Report.SectionFeatures | logLicenseUsage.py:219-224 | the features are the non-`None` section results in section order, each section stamped separately, and every record is kept |
| Report.SectionFails | logLicenseUsage.py:219-222 | parsing fails exactly when a section raises, with the first section's exception |

## Left out

- `get_config`, `write_users` and `write_features` (configuration and CSV file I/O) are not
  part of this model. Neither are the filename format constants, which only name output files.
- `determine_lmutil_version` and `get_lmstatus` run `lmutil` in a subprocess. Their results
  enter the model as parameters: the dialect token (`Option<string>`, `None` for no token) and
  the report string.
- The clock is not read. The model takes one `now` for `today().year` and `now()` in
  `extract_users`, although the source reads the clock again for each line. The stamp of
  section `i` is the parameter `stampAt(i)`.
- Microseconds are left out. They never change the whole-second part of a difference here.
- Floating point is left out. `round(timediff.seconds / 3600)` is modelled as integer
  round-half-to-even.
- Calendar.Format: always writes the year with four digits. CPython's `%Y` for a year below
  1000 follows the platform's C library (glibc does not pad it); only the clock's current
  year reaches this code.
- Python's general `re` engine is left out. Only the five linear patterns the parser uses are
  modelled:
  - `\s` is the whole `str.isspace` set of characters;
  - `\d` is the ASCII digits.
- Users.UserLineRoundTrip: stated only for non-empty fields without white space, a server
  port without `/`, and text after the minute that holds no space and does not start with a
  digit. With spaces in fields, the greedy groups split a line differently. With a `/` in the
  port (`27000/a`), the greedy host group takes `srv/27000` and the port reads back as `a`. Trailers such as `, 2 licenses` or
  ` (linger: 7200)` are outside the round trip: the proof bounds the greedy groups by
  counting spaces, and a trailer holding a second ` d/d h:m` after a space does change the
  groups.
- Features.HeaderRoundTrip, Features.VersionRoundTrip, Features.VendorRoundTrip and
  Features.LicenseRoundTrip are each stated for the fields their predicates describe, not for
  every line that matches.
