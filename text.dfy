/** String helpers with Python's meaning: `str.split`, `str.isspace`, decimal digits. */
module Text {
  import opened Wrappers

  /** Python's `str.isspace` (also what `\s` matches in a `str` pattern). */
  predicate IsWhitespace(c: char) {
    var n := c as int;
    n == 0x20 || 0x09 <= n <= 0x0D || 0x1C <= n <= 0x1F || n == 0x85 || n == 0xA0 ||
    n == 0x1680 || 0x2000 <= n <= 0x200A || n == 0x2028 || n == 0x2029 || n == 0x202F ||
    n == 0x205F || n == 0x3000
  }

  predicate IsDigit(c: char) { '0' <= c <= '9' }

  predicate AllDigits(s: string) { forall i :: 0 <= i < |s| ==> IsDigit(s[i]) }

  /** `pat` occurs in `s` starting at index `i`. */
  predicate OccursAt(s: string, pat: string, i: nat) {
    i + |pat| <= |s| && s[i..i + |pat|] == pat
  }

  predicate Contains(s: string, pat: string) {
    exists i: nat :: i <= |s| && OccursAt(s, pat, i)
  }

  /** The first occurrence of `pat` in `s` at or after `from`. */
  function IndexOf(s: string, pat: string, from: nat): (r: Option<nat>)
    requires from <= |s|
    ensures r.Some? ==> from <= r.value && OccursAt(s, pat, r.value)
    ensures forall i: nat :: from <= i && OccursAt(s, pat, i) ==> r.Some? && r.value <= i
    decreases |s| - from
  {
    if OccursAt(s, pat, from) then Some(from)
    else if from + |pat| >= |s| then None
    else IndexOf(s, pat, from + 1)
  }

  /** Python's `s.split(sep)` for a non-empty separator. */
  function Split(s: string, sep: string): (pieces: seq<string>)
    requires sep != []
    ensures |pieces| >= 1
    ensures forall k :: 0 <= k < |pieces| ==> !Contains(pieces[k], sep)
    decreases |s|
  {
    match IndexOf(s, sep, 0)
    case None => [s]
    case Some(i) =>
      NoEarlierOccurrence(s, sep, i);
      [s[..i]] + Split(s[i + |sep|..], sep)
  }

  /** The text before the first occurrence of `sep` has no occurrence of it. */
  lemma NoEarlierOccurrence(s: string, sep: string, i: nat)
    requires sep != [] && i <= |s|
    requires IndexOf(s, sep, 0) == Some(i)
    ensures !Contains(s[..i], sep)
  {
    forall j: nat | OccursAt(s[..i], sep, j) ensures false {
      assert s[..i][j..j + |sep|] == s[j..j + |sep|];
      assert OccursAt(s, sep, j);
    }
  }

  /** Python's `sep.join(pieces)`. */
  function Join(pieces: seq<string>, sep: string): string
    requires |pieces| >= 1
  {
    if |pieces| == 1 then pieces[0] else pieces[0] + sep + Join(pieces[1..], sep)
  }

  /** Splitting and joining again gives back the text. */
  lemma {:induction false} SplitJoin(s: string, sep: string)
    requires sep != []
    ensures Join(Split(s, sep), sep) == s
    decreases |s|
  {
    match IndexOf(s, sep, 0)
    case None =>
      assert Split(s, sep) == [s];
    case Some(i) =>
      var tail := s[i + |sep|..];
      assert Split(s, sep) == [s[..i]] + Split(tail, sep);
      SplitJoin(tail, sep);
      calc {
        Join(Split(s, sep), sep);
        s[..i] + sep + Join(Split(tail, sep), sep);
        s[..i] + sep + tail;
        { assert s[i..i + |sep|] == sep; }
        s;
      }
  }

  /** `s.split(sep)[0]`: the text up to the first `sep`, or all of `s` when there is none. */
  lemma SplitHead(s: string, sep: string)
    requires sep != []
    ensures var h := Split(s, sep)[0];
      |h| <= |s| && h == s[..|h|] &&
      (Contains(s, sep) ==> OccursAt(s, sep, |h|)) &&
      (!Contains(s, sep) ==> h == s)
  {
    match IndexOf(s, sep, 0)
    case None =>
      assert Split(s, sep) == [s];
      forall i: nat | i <= |s| ensures !OccursAt(s, sep, i) { }
    case Some(i) =>
      assert Split(s, sep)[0] == s[..i];
  }

  /** Splitting finds a separator exactly when the text contains one. */
  lemma SplitCount(s: string, sep: string)
    requires sep != []
    ensures |Split(s, sep)| > 1 <==> Contains(s, sep)
  {
    if Contains(s, sep) {
      var i: nat :| OccursAt(s, sep, i);
    }
  }

  /** The first character of `sep` does not recur in it, so no two occurrences of `sep` overlap. */
  predicate Lone(sep: string) {
    sep != [] && forall k :: 0 < k < |sep| ==> sep[k] != sep[0]
  }

  /** In a piece followed by `sep`, the first `sep` is the one after the piece. */
  lemma FirstSeparator(l: string, sep: string, tail: string)
    requires Lone(sep) && !Contains(l, sep)
    ensures IndexOf(l + sep + tail, sep, 0) == Some(|l|)
  {
    var s := l + sep + tail;
    assert OccursAt(s, sep, |l|) by { assert s[|l|..|l| + |sep|] == sep; }
    forall j: nat | j < |l| ensures !OccursAt(s, sep, j) {
      if j + |sep| <= |l| {
        assert s[j..j + |sep|] == l[j..j + |sep|];
        assert !OccursAt(l, sep, j);
      } else {
        var k := |l| - j;
        assert s[j..j + |sep|][k] == sep[0];
        assert sep[k] != sep[0];
      }
    }
  }

  /** Pieces joined with `sep` split back into the same pieces when none of them holds `sep`. */
  lemma {:induction false} SplitJoinPieces(pieces: seq<string>, sep: string)
    requires |pieces| >= 1 && Lone(sep)
    requires forall k :: 0 <= k < |pieces| ==> !Contains(pieces[k], sep)
    ensures Split(Join(pieces, sep), sep) == pieces
    decreases |pieces|
  {
    var l := pieces[0];
    if |pieces| > 1 {
      var tail := Join(pieces[1..], sep);
      var s := l + sep + tail;
      assert Join(pieces, sep) == s;
      FirstSeparator(l, sep, tail);
      assert s[..|l|] == l && s[|l| + |sep|..] == tail;
      assert Split(s, sep) == [l] + Split(tail, sep);
      SplitJoinPieces(pieces[1..], sep);
      assert pieces == [l] + pieces[1..];
    }
  }

  /** Text appended after a join lengthens the last piece. */
  lemma {:induction false} JoinAppend(pieces: seq<string>, sep: string, trailer: string)
    requires |pieces| >= 1
    ensures Join(pieces, sep) + trailer == Join(pieces[..|pieces| - 1] + [pieces[|pieces| - 1] + trailer], sep)
    decreases |pieces|
  {
    var q := pieces[..|pieces| - 1] + [pieces[|pieces| - 1] + trailer];
    if |pieces| > 1 {
      JoinAppend(pieces[1..], sep, trailer);
      assert q[1..] == pieces[1..][..|pieces[1..]| - 1] + [pieces[1..][|pieces[1..]| - 1] + trailer];
    }
  }

  /** The number of times `c` occurs in `s`. */
  function Count(s: string, c: char): nat {
    if s == [] then 0 else (if s[0] == c then 1 else 0) + Count(s[1..], c)
  }

  lemma {:induction false} CountAppend(a: string, b: string, c: char)
    ensures Count(a + b, c) == Count(a, c) + Count(b, c)
    decreases |a|
  {
    if a == [] {
      assert a + b == b;
    } else {
      assert (a + b)[0] == a[0];
      assert (a + b)[1..] == a[1..] + b;
      CountAppend(a[1..], b, c);
    }
  }

  lemma {:induction false} CountPrefix(a: string, b: string, c: char)
    requires a <= b
    ensures Count(a, c) <= Count(b, c)
  {
    assert b == a + b[|a|..];
    CountAppend(a, b[|a|..], c);
  }

  /** A string that holds `c` at some index counts it at least once. */
  lemma {:induction false} CountAt(s: string, i: nat, c: char)
    requires i < |s| && s[i] == c
    ensures Count(s, c) >= 1
    decreases i
  {
    if i > 0 { CountAt(s[1..], i - 1, c); }
  }

  /** A string without `c` counts it zero times. */
  lemma {:induction false} CountNone(s: string, c: char)
    requires forall i :: 0 <= i < |s| ==> s[i] != c
    ensures Count(s, c) == 0
    decreases |s|
  {
    if s != [] { CountNone(s[1..], c); }
  }

  /** The value of a string of decimal digits, as `int(...)` reads it. */
  function DigitsValue(s: string): (v: nat)
    requires AllDigits(s)
    decreases |s|
  {
    if s == [] then 0 else DigitsValue(s[..|s| - 1]) * 10 + (s[|s| - 1] as int - '0' as int)
  }

  function DigitChar(d: nat): (c: char)
    requires d < 10
    ensures IsDigit(c) && c as int - '0' as int == d
  {
    ('0' as int + d) as char
  }

  /** `n` written with exactly `width` decimal digits, zero-padded (`n` below 10^width). */
  function Padded(n: nat, width: nat): (s: string)
    requires n < Pow10(width)
    ensures |s| == width && AllDigits(s) && DigitsValue(s) == n
    decreases width
  {
    if width == 0 then ""
    else
      var s := Padded(n / 10, width - 1) + [DigitChar(n % 10)];
      assert s[..|s| - 1] == Padded(n / 10, width - 1);
      s
  }

  function Pow10(k: nat): (p: nat)
    ensures p >= 1
  {
    if k == 0 then 1 else 10 * Pow10(k - 1)
  }

  /** A digit string is worth at least its leading digit times its place value. */
  lemma {:induction false} DigitsLeading(s: string)
    requires AllDigits(s) && s != []
    ensures DigitsValue(s) >= (s[0] as int - '0' as int) * Pow10(|s| - 1)
    decreases |s|
  {
    if |s| > 1 {
      var init := s[..|s| - 1];
      assert init[0] == s[0];
      DigitsLeading(init);
      var d := s[0] as int - '0' as int;
      var p := Pow10(|init| - 1);
      var lead := d * p;
      assert Pow10(|s| - 1) == 10 * p;
      assert d * (10 * p) == 10 * lead;
      assert DigitsValue(s) >= 10 * DigitsValue(init) >= 10 * lead;
    }
  }
}
