/**
 * `extract_feature`: one section of the report (the text after one `Users of `) becomes an
 * `LMFeature`, or nothing when its first line is not a feature header with a feature code.
 * The lines after the header are read by position, and which of them are read depends on the
 * report dialect (`'2017'`, `'2015'`, or anything else).
 */
module Features {
  import opened Wrappers
  import opened Text
  import opened Patterns
  import opened Calendar
  import opened Records
  import opened Users

  /**
   * `(.+?)_(.+?)?F:  \(Total of (\d+?) license[s]* issued;  Total of (\d+?) license[s]* in use\)`.
   * Items 0, 2, 4 and 8 are groups 0 to 3 (name, code, issued, used).
   */
  const Header: Pattern := [
    Run(Dot, 1, false, true), Lit("_"),
    OptionalLazy(Dot), Lit("F:  (Total of "),
    Run(Digit, 1, false, true), Lit(" license"),
    Run(Only('s'), 0, true, false), Lit(" issued;  Total of "),
    Run(Digit, 1, false, true), Lit(" license"),
    Run(Only('s'), 0, true, false), Lit(" in use)")
  ]

  /** `.+?v(.+?), vendor: (.+?), expiry: (.+)`: item 2 is group 0, the feature version. */
  const VersionLine: Pattern := [
    Run(Dot, 1, false, false), Lit("v"),
    Run(Dot, 1, false, true), Lit(", vendor: "),
    Run(Dot, 1, false, true), Lit(", expiry: "),
    Run(Dot, 1, true, true)
  ]

  /** `.+?vendor_string: (.+)`: item 2 is group 0, the vendor. */
  const VendorLine: Pattern := [Run(Dot, 1, false, false), Lit("vendor_string: "), Run(Dot, 1, true, true)]

  /** `\s+(.+?) license`: item 1 is group 0, the license type. */
  const LicenseLine: Pattern := [Run(Space, 1, true, false), Run(Dot, 1, false, true), Lit(" license")]

  /** The text item `i` of `p` took in `re.match(p, line)`, or None when the line does not match. */
  function Capture(p: Pattern, i: nat, line: string): (r: Option<string>)
    requires i < |p|
    ensures r.Some? <==> Match(p, line, 0).Some?
    ensures r.Some? ==> Admits(p[i], r.value)
  {
    match Match(p, line, 0)
    case None => None
    case Some(parts) => Some(parts[i])
  }

  /** Python's `x or '--'` on a field that is a string or `None`. */
  function OrDash(x: Option<string>): string {
    if x.Some? && x.value != "" then x.value else "--"
  }

  /** The pieces that are not empty, in order: the list lines 74-77 build. */
  function NonEmpty(pieces: seq<string>): (r: seq<string>)
    ensures |r| <= |pieces|
    ensures forall k :: 0 <= k < |r| ==> r[k] != "" && r[k] in pieces
    decreases |pieces|
  {
    if pieces == [] then []
    else
      var last := pieces[|pieces| - 1];
      var init := NonEmpty(pieces[..|pieces| - 1]);
      assert forall k :: 0 <= k < |init| ==> init[k] in pieces;
      if last == "" then init else init + [last]
  }

  /** `feature_data`: the non-empty `\r\n`-separated lines of a section. */
  function Lines(chunk: string): seq<string> {
    NonEmpty(Split(chunk, "\r\n"))
  }

  /**
   * The vendor and the license type the dialect reads from lines 2 and 3, or the
   * `IndexError` of reading a line past the end.
   */
  function Metadata(lines: seq<string>, lmversion: Option<string>): (r: Result<(Option<string>, Option<string>)>)
    ensures r.Err? ==> r.error == IndexError
    ensures r.Err? <==> (lmversion == Some("2017") && |lines| < 4) || (lmversion == Some("2015") && |lines| < 3)
    ensures r.Ok? && r.value.0.Some? ==> lmversion == Some("2017")
    ensures r.Ok? && r.value.1.Some? ==> lmversion == Some("2017") || lmversion == Some("2015")
  {
    if lmversion == Some("2017") then
      if |lines| < 4 then Err(IndexError)
      else Ok((Capture(VendorLine, 2, lines[2]), Capture(LicenseLine, 1, lines[3])))
    else if lmversion == Some("2015") then
      if |lines| < 3 then Err(IndexError)
      else Ok((None, Capture(LicenseLine, 1, lines[2])))
    else Ok((None, None))
  }

  /**
   * What `extract_feature(chunk, stamp, lmversion)` gives with the clock at `now`: the record,
   * `None` for a section without a feature header and code, or the exception it raises.
   */
  function FeatureOf(chunk: string, stamp: string, lmversion: Option<string>, now: DateTime): Result<Option<Feature>>
    requires IsValid(now)
  {
    Section(Lines(chunk), stamp, lmversion, now)
  }

  /** The same, from the section's non-empty lines. */
  function Section(lines: seq<string>, stamp: string, lmversion: Option<string>, now: DateTime): Result<Option<Feature>>
    requires IsValid(now)
  {
    if lines == [] then Err(IndexError)
    else match Match(Header, lines[0], 0)
      case None => Ok(None)
      case Some(h) =>
        if h[2] == "" then Ok(None)
        else if |lines| == 1 then
          Ok(Some(Feature(h[0], h[2], "--", "--", "--", OrDash(Some(h[4])), OrDash(Some(h[8])), [])))
        else match Metadata(lines, lmversion)
          case Err(e) => Err(e)
          case Ok(meta) =>
            var users := if |lines| > 4 then UsersOf(lines[4..], stamp, now) else Ok([]);
            match users
            case Err(e) => Err(e)
            case Ok(us) =>
              Ok(Some(Feature(h[0], h[2], OrDash(Capture(VersionLine, 2, lines[1])), OrDash(meta.0),
                              OrDash(meta.1), OrDash(Some(h[4])), OrDash(Some(h[8])), us)))
  }

  lemma NonEmptySnoc(pieces: seq<string>, i: nat)
    requires i < |pieces|
    ensures NonEmpty(pieces[..i + 1]) ==
      NonEmpty(pieces[..i]) + (if pieces[i] == "" then [] else [pieces[i]])
  {
    assert pieces[..i + 1][..i] == pieces[..i];
  }

  /** `extract_feature`: the loop that gathers the non-empty lines, then the header and the dialect's lines. */
  method ExtractFeature(chunk: string, stamp: string, lmversion: Option<string>, now: DateTime)
    returns (r: Result<Option<Feature>>)
    requires IsValid(now)
    ensures r == FeatureOf(chunk, stamp, lmversion, now)
  {
    var pieces := Split(chunk, "\r\n");
    var featureData: seq<string> := [];
    var i := 0;
    while i < |pieces|
      invariant 0 <= i <= |pieces|
      invariant featureData == NonEmpty(pieces[..i])
    {
      NonEmptySnoc(pieces, i);
      if pieces[i] != "" {
        featureData := featureData + [pieces[i]];
      }
      i := i + 1;
    }
    assert pieces[..i] == pieces;
    if |featureData| == 0 {
      return Err(IndexError);
    }
    var flmm := Match(Header, featureData[0], 0);
    if flmm.None? || flmm.value[2] == "" {
      return Ok(None);
    }
    var h := flmm.value;
    var featureVersion, vendor, licenseType: Option<string> := None, None, None;
    var users: seq<User> := [];
    if |featureData| > 1 {
      featureVersion := Capture(VersionLine, 2, featureData[1]);
      if lmversion == Some("2017") {
        if |featureData| <= 3 {
          return Err(IndexError);
        }
        vendor := Capture(VendorLine, 2, featureData[2]);
        licenseType := Capture(LicenseLine, 1, featureData[3]);
      } else if lmversion == Some("2015") {
        if |featureData| <= 2 {
          return Err(IndexError);
        }
        licenseType := Capture(LicenseLine, 1, featureData[2]);
      }
      if |featureData| > 4 {
        var found := ExtractUsers(featureData[4..], stamp, now);
        if found.Err? {
          return Err(found.error);
        }
        users := found.value;
      }
    }
    r := Ok(Some(Feature(h[0], h[2], OrDash(featureVersion), OrDash(vendor), OrDash(licenseType),
                         OrDash(Some(h[4])), OrDash(Some(h[8])), users)));
  }

  // ---------------------------------------------------------------------------
  // The header line

  lemma ConcatThree(x: seq<string>)
    requires |x| >= 3
    ensures Concat(x) == x[0] + (x[1] + (x[2] + Concat(x[3..])))
  {
    assert x[1..][1..] == x[2..] && x[2..][1..] == x[3..];
    assert Concat(x[2..]) == x[2] + Concat(x[3..]);
    assert Concat(x[1..]) == x[1] + Concat(x[2..]);
  }

  /**
   * A header match whose name holds a `_` at `i` has a rival: the name cut at `i`, with the
   * rest of the name, the `_` and the code as the code.
   */
  lemma ShorterName(p: Pattern, d: seq<string>, line: string, i: nat) returns (e: seq<string>)
    requires HeaderItems(p) && Spans(p, d, line, 0) && 0 < i < |d[0]| && d[0][i] == '_'
    ensures Spans(p, e, line, 0) && e[0] == d[0][..i]
  {
    assert Admits(p[1], d[1]) && Admits(p[2], d[2]);
    e := [d[0][..i], "_", d[0][i + 1..] + "_" + d[2]] + d[3..];
    assert d[0] == d[0][..i] + "_" + d[0][i + 1..];
    ConcatThree(d);
    ConcatThree(e);
    assert e[3..] == d[3..];
    assert Concat(e) == Concat(d);
    forall j | 0 <= j < |p| ensures Admits(p[j], e[j]) {
      if j == 0 {
        assert forall k :: 0 <= k < i ==> e[0][k] == d[0][k];
      } else if j == 2 {
        forall k | 0 <= k < |e[2]| ensures InClass(Dot, e[2][k]) {
          if k < |d[0]| - i - 1 {
            assert e[2][k] == d[0][i + 1 + k];
          } else if k > |d[0]| - i - 1 {
            assert e[2][k] == d[2][k - (|d[0]| - i)];
          }
        }
      } else if j >= 3 {
        assert e[j] == d[j];
      }
    }
  }

  /**
   * The feature name is the text before the first `_` after the first character: the
   * lazy first group stops at the earliest `_` (the optional code group takes whatever lies
   * between that `_` and the later ones).
   */
  lemma HeaderNameBeforeUnderscore(line: string)
    requires Match(Header, line, 0).Some?
    ensures var name := Match(Header, line, 0).value[0];
      name != "" && |name| < |line| && name == line[..|name|] && line[|name|] == '_' &&
      forall i :: 0 < i < |name| ==> name[i] != '_'
  {
    HeaderConstItems();
    var d := Match(Header, line, 0).value;
    SpansUncons(Header, d, line, 0);
    SpansUncons(Header[1..], d[1..], line, |d[0]|);
    assert Admits(Header[1], d[1]);
    if i :| 0 < i < |d[0]| && d[0][i] == '_' {
      var e := ShorterName(Header, d, line, i);
      assert |d[0]| != |e[0]| && !Better(Header[0], |d[0]|, |e[0]|);
      MatchBest(Header, line, 0, e);
    }
  }

  /** A line without `_` is not a header, so its section gives no record. */
  lemma HeaderNeedsUnderscore(line: string)
    requires Lacks(line, '_')
    ensures Match(Header, line, 0).None?
  {
    CountNone(line, '_');
    assert LiteralCount(Header, '_') >= 1 by {
      LiteralCountAt(Header, 1, '_');
    }
    TooFewForLiterals(Header, line, '_');
  }

  /** The fields of a header line, with the `s` of each `license[s]` written out. */
  datatype HeaderFields = HeaderFields(
    name: string, code: string, issued: string, issuedPlural: string, used: string, usedPlural: string)

  /** The parts of the header line written from `f`, in pattern order. */
  function HeaderParts(f: HeaderFields): (parts: seq<string>)
    ensures |parts| == |Header|
  {
    [f.name, "_", f.code, "F:  (Total of ", f.issued, " license", f.issuedPlural,
     " issued;  Total of ", f.used, " license", f.usedPlural, " in use)"]
  }

  /**
   * Fields that the header pattern reads back unchanged: a name without `_`, a code
   * without `F` (which may be empty, and is then followed by text without `F`), counts of
   * one digit or more, and only `s` after each `license`; no field holds a line feed.
   */
  predicate HeaderReadable(f: HeaderFields, rest: string) {
    f.name != "" && AllIn(Dot, f.name) && Lacks(f.name, '_') &&
    AllIn(Dot, f.code) && Lacks(f.code, 'F') &&
    f.issued != "" && AllDigits(f.issued) && f.used != "" && AllDigits(f.used) &&
    AllIn(Only('s'), f.issuedPlural) && AllIn(Only('s'), f.usedPlural) &&
    (f.code == "" ==> Lacks(rest, 'F'))
  }

  /** `p` holds the items of the header pattern, written out one by one. */
  predicate HeaderItems(p: Pattern) {
    |p| == 12 &&
    p[0] == Run(Dot, 1, false, true) && p[1] == Lit("_") &&
    p[2] == OptionalLazy(Dot) && p[3] == Lit("F:  (Total of ") &&
    p[4] == Run(Digit, 1, false, true) && p[5] == Lit(" license") &&
    p[6] == Run(Only('s'), 0, true, false) && p[7] == Lit(" issued;  Total of ") &&
    p[8] == Run(Digit, 1, false, true) && p[9] == Lit(" license") &&
    p[10] == Run(Only('s'), 0, true, false) && p[11] == Lit(" in use)")
  }

  lemma HeaderConstItems()
    ensures HeaderItems(Header)
  {
  }

  lemma DigitsLack(s: string, c: char)
    requires AllDigits(s) && !IsDigit(c)
    ensures Lacks(s, c) && Count(s, c) == 0 && AllIn(Digit, s)
  {
    CountNone(s, c);
  }

  lemma EssLack(s: string, c: char)
    requires AllIn(Only('s'), s) && c != 's'
    ensures Lacks(s, c) && Count(s, c) == 0
  {
    assert forall i :: 0 <= i < |s| ==> InClass(Only('s'), s[i]);
    CountNone(s, c);
  }

  /** What stops item `j` of a readable header from taking any other length. */
  lemma HeaderItem(p: Pattern, f: HeaderFields, rest: string, j: nat)
    requires HeaderItems(p) && HeaderReadable(f, rest) && j < 12
    ensures var P := HeaderParts(f); FirstNotBetter(p[j..], P[j], LayOut(P[j..], rest))
  {
    if j == 2 {
      HeaderCodeStep(p, f, rest);
    } else if j % 2 == 1 {
      var P := HeaderParts(f);
      LiteralFirst(p[j..], P[j], LayOut(P[j..], rest));
    } else if j == 0 || j == 4 || j == 8 {
      HeaderLazyItem(p, f, rest, j);
    } else {
      HeaderGreedyItem(p, f, rest, j);
    }
  }

  /** The name and the two counts: lazy runs stopped by the literal after them. */
  lemma HeaderLazyItem(p: Pattern, f: HeaderFields, rest: string, j: nat)
    requires HeaderItems(p) && HeaderReadable(f, rest) && (j == 0 || j == 4 || j == 8)
    ensures var P := HeaderParts(f); FirstNotBetter(p[j..], P[j], LayOut(P[j..], rest))
  {
    var P := HeaderParts(f);
    if j != 0 {
      DigitsLack(P[j], ' ');
    }
    LazyBeforeLiteralItem(p, P, j, rest);
  }

  /** The plural endings: greedy runs of `s` stopped by the space after them or the end. */
  lemma HeaderGreedyItem(p: Pattern, f: HeaderFields, rest: string, j: nat)
    requires HeaderItems(p) && HeaderReadable(f, rest) && (j == 6 || j == 10)
    ensures var P := HeaderParts(f); FirstNotBetter(p[j..], P[j], LayOut(P[j..], rest))
  {
    GreedyBeforeOtherItem(p, HeaderParts(f), j, rest);
  }

  /** The code item: present when the code is not empty, left out (and kept out) when it is. */
  lemma HeaderCodeStep(p: Pattern, f: HeaderFields, rest: string)
    requires HeaderItems(p) && HeaderReadable(f, rest)
    ensures var P := HeaderParts(f); FirstNotBetter(p[2..], P[2], LayOut(P[2..], rest))
  {
    var P := HeaderParts(f);
    if f.code != "" {
      LazyBeforeLiteralItem(p, P, 2, rest);
    } else {
      DigitsLack(f.issued, 'F');
      DigitsLack(f.used, 'F');
      EssLack(f.issuedPlural, 'F');
      EssLack(f.usedPlural, 'F');
      CountNone(rest, 'F');
      CountFrom(p, P, 2, rest, 'F');
      OptionalAbsentItem(p, P, 2, rest, 'F');
    }
  }

  /** Every part of a readable header is one its item admits. */
  lemma HeaderAdmitted(p: Pattern, f: HeaderFields, rest: string)
    requires HeaderItems(p) && HeaderReadable(f, rest)
    ensures var P := HeaderParts(f); forall i :: 0 <= i < |p| ==> Admits(p[i], P[i])
  {
    DigitsLack(f.issued, ' ');
    DigitsLack(f.used, ' ');
  }

  /**
   * The round trip of the header pattern: the header written from readable fields is matched
   * with every field read back as written. An empty code is read back as the group left out.
   */
  lemma HeaderRoundTrip(f: HeaderFields, rest: string)
    requires HeaderReadable(f, rest)
    ensures Match(Header, LayOut(HeaderParts(f), rest), 0) == Some(HeaderParts(f))
  {
    HeaderConstItems();
    HeaderItemsStop(Header, f, rest);
    HeaderAdmitted(Header, f, rest);
    MatchByItems(Header, HeaderParts(f), rest);
  }

  lemma HeaderItemsStop(p: Pattern, f: HeaderFields, rest: string)
    requires HeaderItems(p) && HeaderReadable(f, rest)
    ensures var P := HeaderParts(f);
      forall i :: 0 <= i < |p| ==> FirstNotBetter(p[i..], P[i], LayOut(P[i..], rest))
  {
    var P := HeaderParts(f);
    forall i | 0 <= i < |p| ensures FirstNotBetter(p[i..], P[i], LayOut(P[i..], rest)) {
      HeaderItem(p, f, rest, i);
    }
  }

  // ---------------------------------------------------------------------------
  // The lines after the header

  /** The fields of the line after the header: `<lead>v<version>, vendor: <vendor>, expiry: <expiry>`. */
  datatype VersionFields = VersionFields(lead: string, version: string, vendor: string, expiry: string)

  function VersionParts(f: VersionFields): (parts: seq<string>)
    ensures |parts| == |VersionLine|
  {
    [f.lead, "v", f.version, ", vendor: ", f.vendor, ", expiry: ", f.expiry]
  }

  /**
   * Fields that the version pattern reads back unchanged: a lead without `v`, a version and
   * a vendor without `,`, and an expiry that runs to the end of the line; none empty, none
   * holding a line feed.
   */
  predicate VersionReadable(f: VersionFields, rest: string) {
    f.lead != "" && AllIn(Dot, f.lead) && Lacks(f.lead, 'v') &&
    f.version != "" && AllIn(Dot, f.version) && Lacks(f.version, ',') &&
    f.vendor != "" && AllIn(Dot, f.vendor) && Lacks(f.vendor, ',') &&
    f.expiry != "" && AllIn(Dot, f.expiry) &&
    (rest == [] || rest[0] == '\n')
  }

  predicate VersionItems(p: Pattern) {
    |p| == 7 &&
    p[0] == Run(Dot, 1, false, false) && p[1] == Lit("v") &&
    p[2] == Run(Dot, 1, false, true) && p[3] == Lit(", vendor: ") &&
    p[4] == Run(Dot, 1, false, true) && p[5] == Lit(", expiry: ") &&
    p[6] == Run(Dot, 1, true, true)
  }

  lemma VersionItemsStop(p: Pattern, f: VersionFields, rest: string)
    requires VersionItems(p) && VersionReadable(f, rest)
    ensures var P := VersionParts(f);
      forall i :: 0 <= i < |p| ==> FirstNotBetter(p[i..], P[i], LayOut(P[i..], rest))
  {
    var P := VersionParts(f);
    forall i | 0 <= i < |p| ensures FirstNotBetter(p[i..], P[i], LayOut(P[i..], rest)) {
      if i % 2 == 1 {
        LiteralFirst(p[i..], P[i], LayOut(P[i..], rest));
      } else if i < 6 {
        LazyBeforeLiteralItem(p, P, i, rest);
      } else {
        GreedyBeforeOtherItem(p, P, i, rest);
      }
    }
  }

  /** The round trip of the version pattern: the version is read back as written. */
  lemma VersionRoundTrip(f: VersionFields, rest: string)
    requires VersionReadable(f, rest)
    ensures Capture(VersionLine, 2, LayOut(VersionParts(f), rest)) == Some(f.version)
  {
    assert VersionItems(VersionLine);
    VersionMatch(VersionLine, f, rest);
  }

  lemma VersionMatch(p: Pattern, f: VersionFields, rest: string)
    requires VersionItems(p) && VersionReadable(f, rest)
    ensures Match(p, LayOut(VersionParts(f), rest), 0) == Some(VersionParts(f))
  {
    var P := VersionParts(f);
    VersionItemsStop(p, f, rest);
    forall i | 0 <= i < |p| ensures Admits(p[i], P[i]) {
    }
    MatchByItems(p, P, rest);
  }

  /** The fields of the `vendor_string` line: `<lead>vendor_string: <vendor>`. */
  datatype VendorFields = VendorFields(lead: string, vendor: string)

  function VendorParts(f: VendorFields): (parts: seq<string>)
    ensures |parts| == |VendorLine|
  {
    [f.lead, "vendor_string: ", f.vendor]
  }

  /** A lead without `v`, and a vendor that runs to the end of the line; neither empty. */
  predicate VendorReadable(f: VendorFields, rest: string) {
    f.lead != "" && AllIn(Dot, f.lead) && Lacks(f.lead, 'v') &&
    f.vendor != "" && AllIn(Dot, f.vendor) &&
    (rest == [] || rest[0] == '\n')
  }

  /** The round trip of the vendor pattern: the vendor is the rest of the line, as written. */
  lemma VendorRoundTrip(f: VendorFields, rest: string)
    requires VendorReadable(f, rest)
    ensures Capture(VendorLine, 2, LayOut(VendorParts(f), rest)) == Some(f.vendor)
  {
    var p, P := VendorLine, VendorParts(f);
    forall i | 0 <= i < |p| ensures FirstNotBetter(p[i..], P[i], LayOut(P[i..], rest)) {
      if i == 0 {
        LazyBeforeLiteralItem(p, P, 0, rest);
      } else if i == 1 {
        LiteralFirst(p[1..], P[1], LayOut(P[1..], rest));
      } else {
        GreedyBeforeOtherItem(p, P, 2, rest);
      }
    }
    MatchByItems(p, P, rest);
  }

  /** The fields of a license-type line: `<indent><type> license`. */
  datatype LicenseFields = LicenseFields(indent: string, licenseType: string)

  function LicenseParts(f: LicenseFields): (parts: seq<string>)
    ensures |parts| == |LicenseLine|
  {
    [f.indent, f.licenseType, " license"]
  }

  /** White space to indent, then a type that starts with no white space and holds no space. */
  predicate LicenseReadable(f: LicenseFields) {
    f.indent != "" && AllIn(Space, f.indent) &&
    f.licenseType != "" && AllIn(Dot, f.licenseType) && Lacks(f.licenseType, ' ') &&
    !IsWhitespace(f.licenseType[0])
  }

  /** The round trip of the license-type pattern: the type is read back as written, whatever follows. */
  lemma LicenseRoundTrip(f: LicenseFields, rest: string)
    requires LicenseReadable(f)
    ensures Capture(LicenseLine, 1, LayOut(LicenseParts(f), rest)) == Some(f.licenseType)
  {
    var p, P := LicenseLine, LicenseParts(f);
    forall i | 0 <= i < |p| ensures FirstNotBetter(p[i..], P[i], LayOut(P[i..], rest)) {
      if i == 0 {
        GreedyBeforeOtherItem(p, P, 0, rest);
      } else if i == 1 {
        LazyBeforeLiteralItem(p, P, 1, rest);
      } else {
        LiteralFirst(p[2..], P[2], LayOut(P[2..], rest));
      }
    }
    MatchByItems(p, P, rest);
  }


  // ---------------------------------------------------------------------------
  // What a section gives

  /** The first line is a header that has a feature code. */
  predicate HasCode(line: string) {
    Match(Header, line, 0).Some? && Match(Header, line, 0).value[2] != ""
  }

  /** The dialect reads a metadata line past the end of `n` lines. */
  predicate TooShort(lmversion: Option<string>, n: nat) {
    n >= 2 && ((lmversion == Some("2017") && n < 4) || (lmversion == Some("2015") && n < 3))
  }

  /**
   * When `extract_feature` gives nothing, a record, or which exception: `None` exactly
   * when the first line is not a header with a code; `IndexError` exactly when the section
   * is blank or the dialect reads past its last line; otherwise an exception exactly when a
   * user line has no valid checkout time, and then the one `extract_users` raises.
   */
  lemma FeatureOutcomes(lines: seq<string>, stamp: string, lmversion: Option<string>, now: DateTime)
    requires IsValid(now)
    ensures var r := Section(lines, stamp, lmversion, now);
      (r == Ok(None) <==> lines != [] && !HasCode(lines[0])) &&
      (r == Err(IndexError) <==> lines == [] || (HasCode(lines[0]) && TooShort(lmversion, |lines|))) &&
      (r.Err? && r.error != IndexError <==>
        lines != [] && HasCode(lines[0]) && !TooShort(lmversion, |lines|) && |lines| > 4 &&
        UsersOf(lines[4..], stamp, now).Err?) &&
      (r.Err? && r.error != IndexError ==> |lines| > 4 && UsersOf(lines[4..], stamp, now) == Err(r.error)) &&
      (r.Ok? && r.value.Some? <==>
        lines != [] && HasCode(lines[0]) && !TooShort(lmversion, |lines|) &&
        (|lines| > 4 ==> UsersOf(lines[4..], stamp, now).Ok?))
  {
    if lines != [] && HasCode(lines[0]) {
      if TooShort(lmversion, |lines|) {
        assert Metadata(lines, lmversion) == Err(IndexError);
      } else if |lines| > 4 {
        assert Metadata(lines, lmversion).Ok?;
        UsersFail(lines[4..], stamp, now);
      }
    }
  }

  /**
   * The header fields of a record: the name is the text before the header's first `_`, the
   * code is not empty, and the counts are the header's digits (never `--`).
   */
  lemma FeatureHeader(lines: seq<string>, stamp: string, lmversion: Option<string>, now: DateTime)
    requires IsValid(now)
    requires Section(lines, stamp, lmversion, now).Ok? && Section(lines, stamp, lmversion, now).value.Some?
    ensures var f := Section(lines, stamp, lmversion, now).value.value;
      var h := Match(Header, lines[0], 0).value;
      f.featureName == h[0] && f.featureCode == h[2] && f.featureCode != "" && f.issued == h[4] && f.used == h[8] &&
      f.featureName != "" && |f.featureName| < |lines[0]| && f.featureName == lines[0][..|f.featureName|] &&
      lines[0][|f.featureName|] == '_' && Lacks(f.featureName[1..], '_') &&
      f.issued != "" && AllDigits(f.issued) && f.used != "" && AllDigits(f.used)
  {
    var h := Match(Header, lines[0], 0).value;
    HeaderGroups(lines[0]);
    FeatureIsHeader(lines, stamp, lmversion, now);
  }

  lemma FeatureIsHeader(lines: seq<string>, stamp: string, lmversion: Option<string>, now: DateTime)
    requires IsValid(now)
    requires Section(lines, stamp, lmversion, now).Ok? && Section(lines, stamp, lmversion, now).value.Some?
    ensures var f := Section(lines, stamp, lmversion, now).value.value;
      var h := Match(Header, lines[0], 0).value;
      f.featureName == h[0] && f.featureCode == h[2] && f.featureCode != "" &&
      (h[4] != "" ==> f.issued == h[4]) && (h[8] != "" ==> f.used == h[8])
  {
  }

  /** The groups of a header that matches: the name before the first `_`, and two counts of digits. */
  lemma HeaderGroups(line: string)
    requires Match(Header, line, 0).Some?
    ensures var h := Match(Header, line, 0).value;
      h[0] != "" && |h[0]| < |line| && h[0] == line[..|h[0]|] && line[|h[0]|] == '_' && Lacks(h[0][1..], '_') &&
      h[4] != "" && AllDigits(h[4]) && h[8] != "" && AllDigits(h[8])
  {
    var h := Match(Header, line, 0).value;
    HeaderNameBeforeUnderscore(line);
    assert forall i :: 0 <= i < |h[0][1..]| ==> h[0][1..][i] == h[0][i + 1];
    assert Admits(Header[4], h[4]) && Admits(Header[8], h[8]);
    DigitsAdmitted(Header[4], h[4]);
    DigitsAdmitted(Header[8], h[8]);
  }

  /**
   * The other fields of a record: the version comes only from line 1; the vendor only from
   * line 2 in the 2017 dialect; the license type from line 3 in the 2017 dialect and line 2
   * in the 2015 one; a line that does not match leaves `--`; and the users are those of the
   * lines from index 4 on.
   */
  lemma FeatureMetadata(lines: seq<string>, stamp: string, lmversion: Option<string>, now: DateTime)
    requires IsValid(now)
    requires Section(lines, stamp, lmversion, now).Ok? && Section(lines, stamp, lmversion, now).value.Some?
    ensures var f := Section(lines, stamp, lmversion, now).value.value;
      f.featureVersion ==
        (if |lines| > 1 && Capture(VersionLine, 2, lines[1]).Some? then Capture(VersionLine, 2, lines[1]).value else "--") &&
      f.vendor ==
        (if lmversion == Some("2017") && |lines| >= 4 && Capture(VendorLine, 2, lines[2]).Some?
         then Capture(VendorLine, 2, lines[2]).value else "--") &&
      f.licenseType ==
        (if lmversion == Some("2017") && |lines| >= 4 && Capture(LicenseLine, 1, lines[3]).Some?
         then Capture(LicenseLine, 1, lines[3]).value
         else if lmversion == Some("2015") && |lines| >= 3 && Capture(LicenseLine, 1, lines[2]).Some?
         then Capture(LicenseLine, 1, lines[2]).value else "--") &&
      (|lines| <= 4 ==> f.users == []) &&
      (|lines| > 4 ==> UsersOf(lines[4..], stamp, now) == Ok(f.users))
  {
  }

  /**
   * Lines without `\r\n`, joined with `\r\n`, give back the non-empty ones among them as the
   * lines of the section; when none is blank, exactly the lines joined.
   */
  lemma LinesOfJoin(lines: seq<string>)
    requires |lines| >= 1
    requires forall k :: 0 <= k < |lines| ==> !Contains(lines[k], "\r\n")
    ensures Lines(Join(lines, "\r\n")) == NonEmpty(lines)
    ensures (forall k :: 0 <= k < |lines| ==> lines[k] != "") ==> Lines(Join(lines, "\r\n")) == lines
  {
    SplitJoinPieces(lines, "\r\n");
    if forall k :: 0 <= k < |lines| ==> lines[k] != "" {
      NonEmptyKeeps(lines);
    }
  }

  /**
   * A blank line between two blocks of lines (as `lmutil` prints between a section's
   * metadata and its users) is dropped, and both blocks are kept whole and in order.
   */
  lemma BlankLinesDropped(above: seq<string>, below: seq<string>)
    requires forall k :: 0 <= k < |above| ==> above[k] != "" && !Contains(above[k], "\r\n")
    requires forall k :: 0 <= k < |below| ==> below[k] != "" && !Contains(below[k], "\r\n")
    ensures Lines(Join(above + [""] + below, "\r\n")) == above + below
  {
    var lines := above + [""] + below;
    NoCrLfAround(above, below, lines);
    LinesOfJoin(lines);
    NonEmptyAroundBlank(above, below);
  }

  lemma NoCrLfAround(above: seq<string>, below: seq<string>, lines: seq<string>)
    requires forall k :: 0 <= k < |above| ==> !Contains(above[k], "\r\n")
    requires forall k :: 0 <= k < |below| ==> !Contains(below[k], "\r\n")
    requires lines == above + [""] + below
    ensures forall k :: 0 <= k < |lines| ==> !Contains(lines[k], "\r\n")
  {
    forall k | 0 <= k < |lines| ensures !Contains(lines[k], "\r\n") {
      if k < |above| {
        assert lines[k] == above[k];
      } else if k > |above| {
        assert lines[k] == below[k - |above| - 1];
      }
    }
  }

  lemma NonEmptyAroundBlank(above: seq<string>, below: seq<string>)
    requires forall k :: 0 <= k < |above| ==> above[k] != ""
    requires forall k :: 0 <= k < |below| ==> below[k] != ""
    ensures NonEmpty(above + [""] + below) == above + below
  {
    NonEmptyAppend(above + [""], below);
    NonEmptyAppend(above, [""]);
    NonEmptySingle("");
    NonEmptyKeeps(above);
    NonEmptyKeeps(below);
  }

  /** Filtering a concatenation filters each half: nothing is lost, repeated or reordered. */
  lemma {:induction false} NonEmptyAppend(a: seq<string>, b: seq<string>)
    ensures NonEmpty(a + b) == NonEmpty(a) + NonEmpty(b)
    decreases |b|
  {
    if b == [] {
      assert a + b == a;
    } else {
      var init := b[..|b| - 1];
      NonEmptyAppend(a, init);
      assert (a + b)[..|a + b| - 1] == a + init;
      assert (a + b)[|a + b| - 1] == b[|b| - 1];
    }
  }

  /** A single line is kept exactly when it is not empty. */
  lemma NonEmptySingle(x: string)
    ensures NonEmpty([x]) == (if x == "" then [] else [x])
  {
    assert [x][..0] == [];
  }

  lemma {:induction false} NonEmptyKeeps(pieces: seq<string>)
    requires forall k :: 0 <= k < |pieces| ==> pieces[k] != ""
    ensures NonEmpty(pieces) == pieces
    decreases |pieces|
  {
    if pieces != [] {
      NonEmptyKeeps(pieces[..|pieces| - 1]);
      assert pieces[..|pieces| - 1] + [pieces[|pieces| - 1]] == pieces;
    }
  }

  /** A section whose header, version line and dialect lines are known gives the record built from them. */
  lemma SectionFromParts(lines: seq<string>, stamp: string, lmversion: Option<string>, now: DateTime,
                         h: seq<string>, version: string, meta: (Option<string>, Option<string>))
    requires IsValid(now)
    requires |lines| >= 2 && Match(Header, lines[0], 0) == Some(h)
    requires h[2] != "" && h[4] != "" && h[8] != ""
    requires Capture(VersionLine, 2, lines[1]) == Some(version) && version != ""
    requires Metadata(lines, lmversion) == Ok(meta)
    ensures var users := if |lines| > 4 then UsersOf(lines[4..], stamp, now) else Ok([]);
      Section(lines, stamp, lmversion, now) ==
        match users
        case Err(e) => Err(e)
        case Ok(us) => Ok(Some(Feature(h[0], h[2], version, OrDash(meta.0), OrDash(meta.1), h[4], h[8], us)))
  {
  }

  /**
   * A 2017-dialect section read back: header, version line, `vendor_string` line and
   * license-type line written from readable fields, then the user lines, give the record
   * holding every field as written and the users of the user lines.
   */
  lemma Section2017(lines: seq<string>, stamp: string, now: DateTime, header: HeaderFields, version: VersionFields,
                    vendor: VendorFields, license: LicenseFields)
    requires IsValid(now)
    requires HeaderReadable(header, "") && header.code != ""
    requires VersionReadable(version, "") && VendorReadable(vendor, "") && LicenseReadable(license)
    requires |lines| >= 4 && lines[0] == LayOut(HeaderParts(header), "") &&
      lines[1] == LayOut(VersionParts(version), "") && lines[2] == LayOut(VendorParts(vendor), "") &&
      lines[3] == LayOut(LicenseParts(license), "")
    ensures var users := if |lines| > 4 then UsersOf(lines[4..], stamp, now) else Ok([]);
      Section(lines, stamp, Some("2017"), now) ==
        match users
        case Err(e) => Err(e)
        case Ok(us) => Ok(Some(Feature(header.name, header.code, version.version, vendor.vendor,
                                       license.licenseType, header.issued, header.used, us)))
  {
    HeaderRoundTrip(header, "");
    VersionRoundTrip(version, "");
    VendorRoundTrip(vendor, "");
    LicenseRoundTrip(license, "");
    SectionFromParts(lines, stamp, Some("2017"), now, HeaderParts(header), version.version,
                     (Some(vendor.vendor), Some(license.licenseType)));
  }

  /**
   * A 2015-dialect section read back: the license type comes from the line after the
   * version line, the vendor is `--`, the line after that is never read, and the users come
   * from the lines after it.
   */
  lemma Section2015(lines: seq<string>, stamp: string, now: DateTime, header: HeaderFields, version: VersionFields,
                    license: LicenseFields)
    requires IsValid(now)
    requires HeaderReadable(header, "") && header.code != ""
    requires VersionReadable(version, "") && LicenseReadable(license)
    requires |lines| >= 3 && lines[0] == LayOut(HeaderParts(header), "") &&
      lines[1] == LayOut(VersionParts(version), "") && lines[2] == LayOut(LicenseParts(license), "")
    ensures var users := if |lines| > 4 then UsersOf(lines[4..], stamp, now) else Ok([]);
      Section(lines, stamp, Some("2015"), now) ==
        match users
        case Err(e) => Err(e)
        case Ok(us) => Ok(Some(Feature(header.name, header.code, version.version, "--",
                                       license.licenseType, header.issued, header.used, us)))
  {
    HeaderRoundTrip(header, "");
    VersionRoundTrip(version, "");
    LicenseRoundTrip(license, "");
    SectionFromParts(lines, stamp, Some("2015"), now, HeaderParts(header), version.version,
                     (None, Some(license.licenseType)));
  }

  /**
   * A header with nothing between `_` and `F:` (`ACAD_F:  (Total of 50 licenses issued;  Total
   * of 37 licenses in use)`, say) leaves the code group out, so its section gives no record,
   * whatever the dialect.
   */
  lemma NoCodeNoFeature(lines: seq<string>, stamp: string, lmversion: Option<string>, now: DateTime, f: HeaderFields)
    requires IsValid(now)
    requires HeaderReadable(f, "") && f.code == ""
    requires lines != [] && lines[0] == LayOut(HeaderParts(f), "")
    ensures Section(lines, stamp, lmversion, now) == Ok(None)
  {
    HeaderRoundTrip(f, "");
  }
}
