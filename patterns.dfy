/**
 * The parser's regular expressions are all *linear*: a fixed sequence of literals and
 * character-class runs, with one optional lazy group in the feature header. This module
 * gives the leftmost-first backtracking meaning that Python's `re.match` has for such a
 * sequence: a run tries its lengths longest first when greedy and shortest first when lazy,
 * an optional group is tried present before absent, and the first choice for which the
 * rest of the pattern matches wins. The match is anchored at the start, not at the end.
 *
 * A match is described by its *parts*: one string per item, the text that item consumed.
 * A literal consumes itself; an optional group that does not take part consumes "".
 */
module Patterns {
  import opened Wrappers
  import opened Text

  /** The character classes the parser's patterns use. */
  datatype Class =
    | Dot            // `.`   any character but a line feed
    | Space          // `\s`
    | Digit          // `\d`
    | Only(c: char)  // `[c]`

  predicate InClass(cls: Class, c: char) {
    match cls
    case Dot => c != '\n'
    case Space => IsWhitespace(c)
    case Digit => IsDigit(c)
    case Only(d) => c == d
  }

  predicate AllIn(cls: Class, s: string) {
    forall i :: 0 <= i < |s| ==> InClass(cls, s[i])
  }

  datatype Item =
    | Lit(text: string)                                         // literal text
    | Run(cls: Class, min: nat, greedy: bool, captured: bool)  // `c+`, `c*`, `c+?`, `(c+)`, ...
    | OptionalLazy(cls: Class)                                  // `(c+?)?`, always captured
  {
    function RunClass(): Class requires !Lit? { cls }
    function MinLength(): nat requires !Lit? {
      if Run? then min else 0
    }
  }

  type Pattern = seq<Item>

  /** `part` is a text that `item` can consume. */
  predicate Admits(item: Item, part: string) {
    match item
    case Lit(t) => part == t
    case Run(cls, min, _, _) => min <= |part| && AllIn(cls, part)
    case OptionalLazy(cls) => AllIn(cls, part)
  }

  function Concat(parts: seq<string>): string {
    if parts == [] then "" else parts[0] + Concat(parts[1..])
  }

  /** `parts` is a way for pattern `p` to match a prefix of `s[pos..]`. */
  predicate Spans(p: Pattern, parts: seq<string>, s: string, pos: nat) {
    pos <= |s| && |parts| == |p| &&
    (forall i :: 0 <= i < |p| ==> Admits(p[i], parts[i])) &&
    Concat(parts) <= s[pos..]
  }

  /**
   * Which of two lengths the backtracking search tries first for `item`: the longer one
   * for a greedy run, the shorter for a lazy one, and for an optional lazy group any
   * non-empty length (shorter first) before the empty one.
   */
  predicate Better(item: Item, a: nat, b: nat) {
    match item
    case Lit(_) => false
    case Run(_, _, greedy, _) => if greedy then a > b else a < b
    case OptionalLazy(_) => a != 0 && (b == 0 || a < b)
  }

  /** The search reaches decomposition `x` before `y`: they first differ at an item where `x`'s length is tried first. */
  predicate Prefers(p: Pattern, x: seq<string>, y: seq<string>)
    requires |x| == |p| && |y| == |p|
  {
    p != [] &&
    if |x[0]| != |y[0]| then Better(p[0], |x[0]|, |y[0]|)
    else Prefers(p[1..], x[1..], y[1..])
  }

  /** The end of the longest run of `cls` characters starting at `pos`. */
  function RunEnd(cls: Class, s: string, pos: nat): (e: nat)
    requires pos <= |s|
    ensures pos <= e <= |s| && AllIn(cls, s[pos..e])
    ensures e < |s| ==> !InClass(cls, s[e])
    decreases |s| - pos
  {
    if pos < |s| && InClass(cls, s[pos]) then
      var e := RunEnd(cls, s, pos + 1);
      assert forall i :: 1 <= i < e - pos ==> s[pos..e][i] == s[pos + 1..e][i - 1];
      e
    else pos
  }

  /** The match whose first part is `part`, when the rest of the pattern matched after it. */
  function Cons(p: Pattern, part: string, s: string, pos: nat, rest: Option<seq<string>>): (r: Option<seq<string>>)
    requires p != [] && Admits(p[0], part) && pos <= |s| && part <= s[pos..]
    requires rest.Some? ==> Spans(p[1..], rest.value, s, pos + |part|)
    ensures r.Some? <==> rest.Some?
    ensures r.Some? ==> Spans(p, r.value, s, pos) && r.value == [part] + rest.value
  {
    match rest
    case None => None
    case Some(ps) =>
      assert s[pos..pos + |part|] == s[pos..][..|part|];
      SpansCons(p, part, ps, s, pos);
      Some([part] + ps)
  }

  /** Python's `re.match` of pattern `p` against `s[pos..]`: the parts of the first match found. */
  function Match(p: Pattern, s: string, pos: nat): (r: Option<seq<string>>)
    requires pos <= |s|
    ensures r.Some? ==> Spans(p, r.value, s, pos)
    decreases |p|, 1, 0
  {
    if p == [] then Some([])
    else match p[0]
      case Lit(t) =>
        if t <= s[pos..] then
          Cons(p, t, s, pos, Match(p[1..], s, pos + |t|))
        else None
      case Run(cls, min, greedy, _) =>
        var hi := RunEnd(cls, s, pos);
        if hi < pos + min then None
        else if greedy then Longest(p, s, pos, pos + min, hi, hi)
        else Shortest(p, s, pos, pos + min, hi)
      case OptionalLazy(cls) =>
        var hi := RunEnd(cls, s, pos);
        var present := if pos < hi then Shortest(p, s, pos, pos + 1, hi) else None;
        if present.Some? then present
        else Cons(p, "", s, pos, Match(p[1..], s, pos))
  }

  /** A greedy run: try the ends `k`, `k - 1`, ..., `lo`. */
  function Longest(p: Pattern, s: string, pos: nat, lo: nat, k: nat, hi: nat): (r: Option<seq<string>>)
    requires p != [] && !p[0].Lit?
    requires pos + p[0].MinLength() <= lo <= k <= hi <= |s| && AllIn(p[0].RunClass(), s[pos..hi])
    ensures r.Some? ==> Spans(p, r.value, s, pos) && pos + |r.value[0]| <= k
    decreases |p|, 0, k
  {
    var tail := Match(p[1..], s, k);
    if tail.Some? then
      RunPartAdmitted(p[0], s, pos, k, hi);
      SpansCons(p, s[pos..k], tail.value, s, pos);
      Some([s[pos..k]] + tail.value)
    else if k == lo then None
    else Longest(p, s, pos, lo, k - 1, hi)
  }

  /** A lazy run: try the ends `k`, `k + 1`, ..., `hi`. */
  function Shortest(p: Pattern, s: string, pos: nat, k: nat, hi: nat): (r: Option<seq<string>>)
    requires p != [] && !p[0].Lit?
    requires pos + p[0].MinLength() <= k <= hi <= |s| && AllIn(p[0].RunClass(), s[pos..hi])
    ensures r.Some? ==> Spans(p, r.value, s, pos) && k <= pos + |r.value[0]|
    decreases |p|, 0, |s| - k
  {
    var tail := Match(p[1..], s, k);
    if tail.Some? then
      RunPartAdmitted(p[0], s, pos, k, hi);
      SpansCons(p, s[pos..k], tail.value, s, pos);
      Some([s[pos..k]] + tail.value)
    else if k == hi then None
    else Shortest(p, s, pos, k + 1, hi)
  }

  lemma RunPartAdmitted(item: Item, s: string, pos: nat, k: nat, hi: nat)
    requires !item.Lit? && pos + item.MinLength() <= k <= hi <= |s| && AllIn(item.RunClass(), s[pos..hi])
    ensures Admits(item, s[pos..k])
  {
    assert forall i :: 0 <= i < k - pos ==> s[pos..k][i] == s[pos..hi][i];
  }

  /** Adding an admitted first part in front of a match of the rest gives a match. */
  lemma SpansCons(p: Pattern, part: string, rest: seq<string>, s: string, pos: nat)
    requires p != [] && Admits(p[0], part)
    requires pos + |part| <= |s| && s[pos..pos + |part|] == part
    requires Spans(p[1..], rest, s, pos + |part|)
    ensures Spans(p, [part] + rest, s, pos)
  {
    var parts := [part] + rest;
    assert parts[1..] == rest;
    assert Concat(parts) == part + Concat(rest);
    assert s[pos..] == part + s[pos + |part|..];
    forall i | 0 <= i < |p| ensures Admits(p[i], parts[i]) {
      if i > 0 { assert p[i] == p[1..][i - 1]; }
    }
  }

  /** The first part of a match is the text at `pos`, and the other parts match the rest. */
  lemma SpansUncons(p: Pattern, parts: seq<string>, s: string, pos: nat)
    requires p != [] && Spans(p, parts, s, pos)
    ensures pos + |parts[0]| <= |s| && s[pos..pos + |parts[0]|] == parts[0]
    ensures Admits(p[0], parts[0])
    ensures Spans(p[1..], parts[1..], s, pos + |parts[0]|)
  {
    assert Concat(parts) == parts[0] + Concat(parts[1..]);
    assert parts[0] <= s[pos..];
    assert s[pos..][|parts[0]|..] == s[pos + |parts[0]|..];
    forall i | 0 <= i < |p| - 1 ensures Admits(p[1..][i], parts[1..][i]) {
      assert p[1..][i] == p[i + 1];
    }
  }

  /** A run's part ends no later than the longest run of its class. */
  lemma PartWithinRun(item: Item, part: string, s: string, pos: nat)
    requires !item.Lit? && Admits(item, part)
    requires pos + |part| <= |s| && s[pos..pos + |part|] == part
    ensures pos + |part| <= RunEnd(item.RunClass(), s, pos)
  {
    assert forall i :: 0 <= i < |part| ==> s[pos..pos + |part|][i] == part[i];
    RunEndMaximal(item.RunClass(), s, pos, pos + |part|);
  }

  /** No run of the class is longer than the one `RunEnd` finds. */
  lemma {:induction false} RunEndMaximal(cls: Class, s: string, pos: nat, j: nat)
    requires pos <= j <= |s| && AllIn(cls, s[pos..j])
    ensures j <= RunEnd(cls, s, pos)
    decreases j - pos
  {
    if pos < j {
      assert s[pos] == s[pos..j][0];
      assert forall i :: 1 <= i < j - pos ==> s[pos + 1..j][i - 1] == s[pos..j][i];
      RunEndMaximal(cls, s, pos + 1, j);
    }
  }

  /**
   * Completeness and priority: whenever `q` is a way for `p` to match at `pos`, `Match`
   * finds a match, and the one it finds is `q` itself or one the search reaches first.
   */
  lemma {:induction false} MatchBest(p: Pattern, s: string, pos: nat, q: seq<string>)
    requires Spans(p, q, s, pos)
    ensures Match(p, s, pos).Some?
    ensures Match(p, s, pos).value == q || Prefers(p, Match(p, s, pos).value, q)
    decreases |p|, 2, 0
  {
    if p == [] {
      assert q == [];
    } else {
      SpansUncons(p, q, s, pos);
      match p[0]
      case Lit(t) =>
        MatchBestLit(p, s, pos, q);
      case Run(cls, min, greedy, _) =>
        MatchBestRun(p, s, pos, q);
      case OptionalLazy(cls) =>
        MatchBestOptional(p, s, pos, q);
    }
  }

  lemma {:induction false} MatchBestLit(p: Pattern, s: string, pos: nat, q: seq<string>)
    requires Spans(p, q, s, pos) && p != [] && p[0].Lit?
    ensures Match(p, s, pos).Some?
    ensures Match(p, s, pos).value == q || Prefers(p, Match(p, s, pos).value, q)
    decreases |p|, 1, 0
  {
    SpansUncons(p, q, s, pos);
    var t := p[0].text;
    assert q[0] == t;
    assert t <= s[pos..] by { assert s[pos..][..|t|] == s[pos..pos + |t|]; }
    MatchBest(p[1..], s, pos + |t|, q[1..]);
    var r := Match(p[1..], s, pos + |t|).value;
    assert Match(p, s, pos) == Some([t] + r);
    assert ([t] + r)[1..] == r;
    if r == q[1..] { assert [t] + r == q; }
  }

  lemma {:induction false} MatchBestRun(p: Pattern, s: string, pos: nat, q: seq<string>)
    requires Spans(p, q, s, pos) && p != [] && p[0].Run?
    ensures Match(p, s, pos).Some?
    ensures Match(p, s, pos).value == q || Prefers(p, Match(p, s, pos).value, q)
    decreases |p|, 1, 0
  {
    SpansUncons(p, q, s, pos);
    PartWithinRun(p[0], q[0], s, pos);
    var hi := RunEnd(p[0].cls, s, pos);
    if p[0].greedy {
      LongestBest(p, s, pos, pos + p[0].min, hi, hi, q);
    } else {
      ShortestBest(p, s, pos, pos + p[0].min, hi, q);
    }
  }

  lemma {:induction false} MatchBestOptional(p: Pattern, s: string, pos: nat, q: seq<string>)
    requires Spans(p, q, s, pos) && p != [] && p[0].OptionalLazy?
    ensures Match(p, s, pos).Some?
    ensures Match(p, s, pos).value == q || Prefers(p, Match(p, s, pos).value, q)
    decreases |p|, 1, 0
  {
    SpansUncons(p, q, s, pos);
    PartWithinRun(p[0], q[0], s, pos);
    var hi := RunEnd(p[0].cls, s, pos);
    var present := if pos < hi then Shortest(p, s, pos, pos + 1, hi) else None;
    if q[0] != "" {
      ShortestBest(p, s, pos, pos + 1, hi, q);
    } else if present.Some? {
      var r := present.value;
      SpansUncons(p, r, s, pos);
      assert Match(p, s, pos) == present;
      assert |r[0]| != 0;
    } else {
      MatchBest(p[1..], s, pos, q[1..]);
      var r := Match(p[1..], s, pos).value;
      assert Match(p, s, pos) == Some([""] + r);
      assert ([""] + r)[1..] == r;
      if r == q[1..] { assert [""] + r == q; }
    }
  }

  lemma {:induction false} LongestBest(p: Pattern, s: string, pos: nat, lo: nat, k: nat, hi: nat, q: seq<string>)
    requires p != [] && !p[0].Lit?
    requires pos + p[0].MinLength() <= lo <= k <= hi <= |s| && AllIn(p[0].RunClass(), s[pos..hi])
    requires Spans(p, q, s, pos) && lo <= pos + |q[0]| <= k
    requires p[0].Run? && p[0].greedy
    ensures Longest(p, s, pos, lo, k, hi).Some?
    ensures Longest(p, s, pos, lo, k, hi).value == q || Prefers(p, Longest(p, s, pos, lo, k, hi).value, q)
    decreases |p|, 0, k, 1
  {
    if Match(p[1..], s, k).Some? {
      LongestFound(p, s, pos, lo, k, hi, q);
    } else {
      LongestNext(p, s, pos, lo, k, hi, q);
      LongestBest(p, s, pos, lo, k - 1, hi, q);
    }
  }

  /** The greedy search stops at `k` when the rest matches there. */
  lemma {:induction false} LongestFound(p: Pattern, s: string, pos: nat, lo: nat, k: nat, hi: nat, q: seq<string>)
    requires p != [] && p[0].Run? && p[0].greedy
    requires pos + p[0].MinLength() <= lo <= k <= hi <= |s| && AllIn(p[0].RunClass(), s[pos..hi])
    requires Spans(p, q, s, pos) && lo <= pos + |q[0]| <= k
    requires Match(p[1..], s, k).Some?
    ensures Longest(p, s, pos, lo, k, hi).Some?
    ensures Longest(p, s, pos, lo, k, hi).value == q || Prefers(p, Longest(p, s, pos, lo, k, hi).value, q)
    decreases |p|, 0, k, 0
  {
    SpansUncons(p, q, s, pos);
    var e := pos + |q[0]|;
    if k == e {
      MatchBest(p[1..], s, e, q[1..]);
    }
    LongestHere(p, s, pos, lo, k, hi, q);
  }

  /** When the rest does not match at `k`, `q` ends before `k` and the greedy search moves on to `k - 1`. */
  lemma {:induction false} LongestNext(p: Pattern, s: string, pos: nat, lo: nat, k: nat, hi: nat, q: seq<string>)
    requires p != [] && !p[0].Lit?
    requires pos + p[0].MinLength() <= lo <= k <= hi <= |s| && AllIn(p[0].RunClass(), s[pos..hi])
    requires Spans(p, q, s, pos) && lo <= pos + |q[0]| <= k
    requires Match(p[1..], s, k).None?
    ensures lo <= pos + |q[0]| < k
    ensures Longest(p, s, pos, lo, k, hi) == Longest(p, s, pos, lo, k - 1, hi)
    decreases |p|, 0, k, 0
  {
    SpansUncons(p, q, s, pos);
    var e := pos + |q[0]|;
    MatchFound(p[1..], s, e, q[1..]);
    assert e != k;
    LongestSkip(p, s, pos, lo, k, hi);
  }

  lemma {:induction false} ShortestBest(p: Pattern, s: string, pos: nat, k: nat, hi: nat, q: seq<string>)
    requires p != [] && !p[0].Lit?
    requires pos + p[0].MinLength() <= k <= hi <= |s| && AllIn(p[0].RunClass(), s[pos..hi])
    requires Spans(p, q, s, pos) && k <= pos + |q[0]| <= hi
    requires p[0].OptionalLazy? || (p[0].Run? && !p[0].greedy)
    requires p[0].OptionalLazy? ==> k > pos
    ensures Shortest(p, s, pos, k, hi).Some?
    ensures Shortest(p, s, pos, k, hi).value == q || Prefers(p, Shortest(p, s, pos, k, hi).value, q)
    decreases |p|, 0, |s| - k, 1
  {
    if Match(p[1..], s, k).Some? {
      ShortestFound(p, s, pos, k, hi, q);
    } else {
      ShortestNext(p, s, pos, k, hi, q);
      ShortestBest(p, s, pos, k + 1, hi, q);
    }
  }
  lemma {:induction false} ShortestFound(p: Pattern, s: string, pos: nat, k: nat, hi: nat, q: seq<string>)
    requires p != [] && (p[0].OptionalLazy? || (p[0].Run? && !p[0].greedy))
    requires pos + p[0].MinLength() <= k <= hi <= |s| && AllIn(p[0].RunClass(), s[pos..hi])
    requires Spans(p, q, s, pos) && k <= pos + |q[0]| <= hi
    requires p[0].OptionalLazy? ==> k > pos
    requires Match(p[1..], s, k).Some?
    ensures Shortest(p, s, pos, k, hi).Some?
    ensures Shortest(p, s, pos, k, hi).value == q || Prefers(p, Shortest(p, s, pos, k, hi).value, q)
    decreases |p|, 0, |s| - k, 0
  {
    SpansUncons(p, q, s, pos);
    var e := pos + |q[0]|;
    if k == e {
      MatchBest(p[1..], s, e, q[1..]);
    }
    ShortestHere(p, s, pos, k, hi, q);
  }
  lemma {:induction false} ShortestNext(p: Pattern, s: string, pos: nat, k: nat, hi: nat, q: seq<string>)
    requires p != [] && !p[0].Lit?
    requires pos + p[0].MinLength() <= k <= hi <= |s| && AllIn(p[0].RunClass(), s[pos..hi])
    requires Spans(p, q, s, pos) && k <= pos + |q[0]| <= hi
    requires Match(p[1..], s, k).None?
    ensures k < pos + |q[0]| <= hi
    ensures Shortest(p, s, pos, k, hi) == Shortest(p, s, pos, k + 1, hi)
    decreases |p|, 0, |s| - k, 0
  {
    SpansUncons(p, q, s, pos);
    var e := pos + |q[0]|;
    MatchFound(p[1..], s, e, q[1..]);
    assert e != k;
    ShortestSkip(p, s, pos, k, hi);
  }
  lemma LongestHere(p: Pattern, s: string, pos: nat, lo: nat, k: nat, hi: nat, q: seq<string>)
    requires p != [] && p[0].Run? && p[0].greedy
    requires pos + p[0].MinLength() <= lo <= k <= hi <= |s| && AllIn(p[0].RunClass(), s[pos..hi])
    requires |q| == |p| && pos + |q[0]| <= k && q[0] == s[pos..pos + |q[0]|]
    requires Match(p[1..], s, k).Some?
    requires k == pos + |q[0]| ==>
      (Match(p[1..], s, k).value == q[1..] || Prefers(p[1..], Match(p[1..], s, k).value, q[1..]))
    ensures Longest(p, s, pos, lo, k, hi).Some?
    ensures Longest(p, s, pos, lo, k, hi).value == q || Prefers(p, Longest(p, s, pos, lo, k, hi).value, q)
  {
    var r := [s[pos..k]] + Match(p[1..], s, k).value;
    assert Longest(p, s, pos, lo, k, hi) == Some(r);
    if k == pos + |q[0]| {
      assert r[0] == q[0] && r[1..] == Match(p[1..], s, k).value;
      PrefersCons(p, r, q);
    }
  }

  /** A lazy run whose rest matches after `k` stops there, and that is no worse than `q`. */
  lemma ShortestHere(p: Pattern, s: string, pos: nat, k: nat, hi: nat, q: seq<string>)
    requires p != [] && (p[0].OptionalLazy? || (p[0].Run? && !p[0].greedy))
    requires pos + p[0].MinLength() <= k <= hi <= |s| && AllIn(p[0].RunClass(), s[pos..hi])
    requires p[0].OptionalLazy? ==> k > pos
    requires |q| == |p| && k <= pos + |q[0]| <= |s| && q[0] == s[pos..pos + |q[0]|]
    requires Match(p[1..], s, k).Some?
    requires k == pos + |q[0]| ==>
      (Match(p[1..], s, k).value == q[1..] || Prefers(p[1..], Match(p[1..], s, k).value, q[1..]))
    ensures Shortest(p, s, pos, k, hi).Some?
    ensures Shortest(p, s, pos, k, hi).value == q || Prefers(p, Shortest(p, s, pos, k, hi).value, q)
  {
    var r := [s[pos..k]] + Match(p[1..], s, k).value;
    assert Shortest(p, s, pos, k, hi) == Some(r);
    if k == pos + |q[0]| {
      assert r[0] == q[0] && r[1..] == Match(p[1..], s, k).value;
      PrefersCons(p, r, q);
    }
  }

  /** A greedy run whose rest fails to match after `k` goes on with `k - 1`. */
  lemma LongestSkip(p: Pattern, s: string, pos: nat, lo: nat, k: nat, hi: nat)
    requires p != [] && !p[0].Lit?
    requires pos + p[0].MinLength() <= lo < k <= hi <= |s| && AllIn(p[0].RunClass(), s[pos..hi])
    requires Match(p[1..], s, k).None?
    ensures Longest(p, s, pos, lo, k, hi) == Longest(p, s, pos, lo, k - 1, hi)
  {
  }

  /** A lazy run whose rest fails to match after `k` goes on with `k + 1`. */
  lemma ShortestSkip(p: Pattern, s: string, pos: nat, k: nat, hi: nat)
    requires p != [] && !p[0].Lit?
    requires pos + p[0].MinLength() <= k < hi <= |s| && AllIn(p[0].RunClass(), s[pos..hi])
    requires Match(p[1..], s, k).None?
    ensures Shortest(p, s, pos, k, hi) == Shortest(p, s, pos, k + 1, hi)
  {
  }

  /** Whenever `p` can match at `pos`, the search finds a match. */
  lemma {:induction false} MatchFound(p: Pattern, s: string, pos: nat, q: seq<string>)
    requires Spans(p, q, s, pos)
    ensures Match(p, s, pos).Some?
    decreases |p|, 3, 0
  {
    MatchBest(p, s, pos, q);
  }

  /** Two decompositions with the same first part compare as their remaining parts do. */
  lemma PrefersCons(p: Pattern, r: seq<string>, q: seq<string>)
    requires p != [] && |r| == |p| && |q| == |p| && r[0] == q[0]
    requires r[1..] == q[1..] || Prefers(p[1..], r[1..], q[1..])
    ensures r == q || Prefers(p, r, q)
  {
    if r[1..] == q[1..] {
      assert r == [r[0]] + r[1..] && q == [q[0]] + q[1..];
    }
  }

  /** No way for `p` to match at the start of `t` is reached by the search before `best`. */
  ghost predicate Optimal(p: Pattern, best: seq<string>, t: string)
    requires |best| == |p|
  {
    forall d :: Spans(p, d, t, 0) ==> !Prefers(p, d, best)
  }

  /** No way for `p` to match at the start of `t` tries a first part before `first`. */
  ghost predicate FirstNotBetter(p: Pattern, first: string, t: string)
    requires p != []
  {
    forall d :: Spans(p, d, t, 0) ==> !Better(p[0], |d[0]|, |first|)
  }

  /** A decomposition that the search cannot reach anything before is the one `re.match` returns. */
  lemma MatchIs(p: Pattern, best: seq<string>, t: string)
    requires Spans(p, best, t, 0) && Optimal(p, best, t)
    ensures Match(p, t, 0) == Some(best)
  {
    MatchBest(p, t, 0, best);
  }

  lemma SpansShift(p: Pattern, d: seq<string>, s: string, pos: nat)
    requires pos <= |s|
    ensures Spans(p, d, s, pos) <==> Spans(p, d, s[pos..], 0)
  {
    assert s[pos..][0..] == s[pos..];
  }

  /** Each item in turn, given the ones before it as in `best`, tries no part before `best`'s first. */
  ghost predicate ItemsNotBetter(p: Pattern, best: seq<string>, t: string)
    requires |best| == |p|
    decreases |p|
  {
    p != [] ==>
      FirstNotBetter(p, best[0], t) &&
      best[0] <= t && ItemsNotBetter(p[1..], best[1..], t[|best[0]|..])
  }

  /** Optimality is decided item by item, front to back. */
  lemma {:induction false} OptimalByItems(p: Pattern, best: seq<string>, t: string)
    requires |best| == |p| && ItemsNotBetter(p, best, t)
    ensures Optimal(p, best, t)
    decreases |p|
  {
    if p != [] {
      OptimalByItems(p[1..], best[1..], t[|best[0]|..]);
      OptimalCons(p, best, t);
    }
  }

  lemma OptimalCons(p: Pattern, best: seq<string>, t: string)
    requires p != [] && |best| == |p| && best[0] <= t
    requires FirstNotBetter(p, best[0], t)
    requires Optimal(p[1..], best[1..], t[|best[0]|..])
    ensures Optimal(p, best, t)
  {
    forall d | Spans(p, d, t, 0) ensures !Prefers(p, d, best) {
      if |d[0]| == |best[0]| {
        SpansUncons(p, d, t, 0);
        assert d[0] == best[0];
        SpansShift(p[1..], d[1..], t, |d[0]|);
      }
    }
  }

  /** The number of times `c` occurs in the literals of `p`. */
  function LiteralCount(p: Pattern, c: char): nat {
    if p == [] then 0 else (if p[0].Lit? then Count(p[0].text, c) else 0) + LiteralCount(p[1..], c)
  }

  /** Every match holds at least the occurrences of `c` in the pattern's literals, plus those in its first part. */
  lemma {:induction false} SpansCount(p: Pattern, d: seq<string>, s: string, pos: nat, c: char)
    requires Spans(p, d, s, pos)
    ensures Count(Concat(d), c) >= LiteralCount(p, c)
    ensures p != [] && !p[0].Lit? ==> Count(Concat(d), c) >= Count(d[0], c) + LiteralCount(p, c)
    decreases |p|
  {
    if p != [] {
      SpansUncons(p, d, s, pos);
      SpansCount(p[1..], d[1..], s, pos + |d[0]|, c);
      CountAppend(d[0], Concat(d[1..]), c);
    }
  }

  /** When only the literals hold `c`, a match holds exactly their occurrences. */
  lemma {:induction false} ExactCount(p: Pattern, d: seq<string>, c: char)
    requires |d| == |p|
    requires forall i :: 0 <= i < |p| ==> Admits(p[i], d[i])
    requires forall i :: 0 <= i < |p| && !p[i].Lit? ==> Count(d[i], c) == 0
    ensures Count(Concat(d), c) == LiteralCount(p, c)
    decreases |p|
  {
    if p != [] {
      assert forall i :: 0 <= i < |p| - 1 ==> p[1..][i] == p[i + 1] && d[1..][i] == d[i + 1];
      ExactCount(p[1..], d[1..], c);
      CountAppend(d[0], Concat(d[1..]), c);
    }
  }

  /** The literals of `p` hold at least the occurrences in any one of them. */
  lemma {:induction false} LiteralCountAt(p: Pattern, j: nat, c: char)
    requires j < |p| && p[j].Lit?
    ensures LiteralCount(p, c) >= Count(p[j].text, c)
    decreases j
  {
    if j > 0 {
      assert p[1..][j - 1] == p[j];
      LiteralCountAt(p[1..], j - 1, c);
    }
  }

  /** A text with fewer occurrences of `c` than the pattern's literals need does not match. */
  lemma TooFewForLiterals(p: Pattern, s: string, c: char)
    requires Count(s, c) < LiteralCount(p, c)
    ensures Match(p, s, 0).None?
  {
    if Match(p, s, 0).Some? {
      var d := Match(p, s, 0).value;
      SpansCount(p, d, s, 0, c);
      CountPrefix(Concat(d), s, c);
    }
  }

  /**
   * A run cannot take in a `c` when the text ahead holds no more of them than the
   * pattern's literals need.
   */
  lemma NoneAbsorbed(p: Pattern, d: seq<string>, t: string, c: char)
    requires p != [] && !p[0].Lit? && Spans(p, d, t, 0)
    requires Count(t, c) <= LiteralCount(p, c)
    ensures forall i :: 0 <= i < |d[0]| ==> d[0][i] != c
  {
    SpansCount(p, d, t, 0, c);
    CountPrefix(Concat(d), t, c);
    forall i | 0 <= i < |d[0]| ensures d[0][i] != c {
      if d[0][i] == c { CountAt(d[0], i, c); }
    }
  }

  /** The literal that heads a matched pattern stands in the text where the match places it. */
  lemma LiteralAt(p: Pattern, d: seq<string>, t: string, pos: nat)
    requires p != [] && p[0].Lit? && Spans(p, d, t, pos)
    ensures p[0].text <= t[pos..]
  {
    SpansUncons(p, d, t, pos);
    assert t[pos..][..|d[0]|] == t[pos..pos + |d[0]|];
  }

  /** The first part of a match is the head of the text. */
  lemma FirstPartIsHead(p: Pattern, d: seq<string>, t: string)
    requires p != [] && Spans(p, d, t, 0)
    ensures |d[0]| <= |t| && forall i :: 0 <= i < |d[0]| ==> t[i] == d[0][i]
  {
    SpansUncons(p, d, t, 0);
  }

  /** A greedy run cannot reach past a character outside its class. */
  lemma GreedyStopsAtClass(p: Pattern, first: string, t: string)
    requires p != [] && p[0].Run? && p[0].greedy && |first| <= |t|
    requires |first| < |t| ==> !InClass(p[0].cls, t[|first|])
    ensures FirstNotBetter(p, first, t)
  {
    forall d | Spans(p, d, t, 0) ensures !Better(p[0], |d[0]|, |first|) {
      SpansUncons(p, d, t, 0);
      FirstPartIsHead(p, d, t);
      assert forall i :: 0 <= i < |d[0]| ==> InClass(p[0].cls, t[i]);
    }
  }

  /**
   * A greedy run followed by a literal cannot reach past the character `c` at `k` when
   * the text holds no more `c` than the literals need, nor end anywhere after `first`
   * and up to `k` where the literal does not follow.
   */
  lemma GreedyStopsBefore(p: Pattern, first: string, t: string, k: nat, c: char)
    requires |p| >= 2 && p[0].Run? && p[0].greedy && p[1].Lit?
    requires Count(t, c) <= LiteralCount(p, c)
    requires |first| <= k < |t| && t[k] == c
    requires forall m :: |first| < m <= k ==> !(p[1].text <= t[m..])
    ensures FirstNotBetter(p, first, t)
  {
    forall d | Spans(p, d, t, 0) ensures !Better(p[0], |d[0]|, |first|) {
      SpansUncons(p, d, t, 0);
      LiteralAt(p[1..], d[1..], t, |d[0]|);
      NoneAbsorbed(p, d, t, c);
      FirstPartIsHead(p, d, t);
      assert forall i :: 0 <= i < |d[0]| ==> t[i] != c;
    }
  }

  /** A lazy run (or optional lazy group) followed by a literal ends where the literal first follows. */
  lemma LazyStopsAtLiteral(p: Pattern, first: string, t: string)
    requires |p| >= 2 && p[1].Lit? && |first| <= |t|
    requires (p[0].Run? && !p[0].greedy && p[0].min >= 1) || (p[0].OptionalLazy? && first != "")
    requires forall m :: 0 < m < |first| ==> !(p[1].text <= t[m..])
    ensures FirstNotBetter(p, first, t)
  {
    forall d | Spans(p, d, t, 0) ensures !Better(p[0], |d[0]|, |first|) {
      SpansUncons(p, d, t, 0);
      LiteralAt(p[1..], d[1..], t, |d[0]|);
    }
  }

  /** The parts written one after another, followed by `rest`. */
  function LayOut(parts: seq<string>, rest: string): (t: string)
    ensures |t| >= |rest|
  {
    if parts == [] then rest else parts[0] + LayOut(parts[1..], rest)
  }

  /** Laying out from `j` on is the part at `j` followed by the lay-out from `j + 1` on. */
  lemma LayOutStep(parts: seq<string>, j: nat, rest: string)
    requires j < |parts|
    ensures LayOut(parts[j..], rest) == parts[j] + LayOut(parts[j + 1..], rest)
  {
    assert parts[j..][1..] == parts[j + 1..];
  }

  /** Building `ItemsNotBetter` back to front, one item at a time. */
  lemma ItemsStep(p: Pattern, best: seq<string>, j: nat, rest: string)
    requires |best| == |p| && j < |p|
    requires FirstNotBetter(p[j..], best[j], LayOut(best[j..], rest))
    requires ItemsNotBetter(p[j + 1..], best[j + 1..], LayOut(best[j + 1..], rest))
    ensures ItemsNotBetter(p[j..], best[j..], LayOut(best[j..], rest))
  {
    LayOutStep(best, j, rest);
    assert p[j..][1..] == p[j + 1..] && best[j..][1..] == best[j + 1..];
    assert LayOut(best[j..], rest)[|best[j]|..] == LayOut(best[j + 1..], rest);
  }

  /** The end of the walk: nothing is left to match. */
  lemma ItemsDone(p: Pattern, best: seq<string>, rest: string)
    requires |best| == |p|
    ensures ItemsNotBetter(p[|p|..], best[|p|..], LayOut(best[|p|..], rest))
  {
    assert p[|p|..] == [];
  }

  /** The occurrences of `c` laid out from `j` on are at most the literals', when no run takes one in. */
  lemma CountStep(p: Pattern, best: seq<string>, j: nat, rest: string, c: char)
    requires |best| == |p| && j < |p|
    requires p[j].Lit? ==> best[j] == p[j].text
    requires !p[j].Lit? ==> Count(best[j], c) == 0
    requires Count(LayOut(best[j + 1..], rest), c) <= LiteralCount(p[j + 1..], c)
    ensures Count(LayOut(best[j..], rest), c) <= LiteralCount(p[j..], c)
  {
    LayOutStep(best, j, rest);
    assert p[j..][1..] == p[j + 1..];
    CountAppend(best[j], LayOut(best[j + 1..], rest), c);
  }

  /** At the end of the walk only `rest` is left, and it must hold no `c`. */
  lemma CountDone(p: Pattern, best: seq<string>, rest: string, c: char)
    requires |best| == |p| && Count(rest, c) == 0
    ensures Count(LayOut(best[|p|..], rest), c) <= LiteralCount(p[|p|..], c)
  {
    assert best[|p|..] == [];
  }

  /** A literal whose first character differs from the text's at `m` does not start there. */
  lemma NotAt(lit: string, t: string, m: nat)
    requires m < |t| && lit != [] && lit[0] != t[m]
    ensures !(lit <= t[m..])
  {
  }

  /** Parts that each admit their item, laid out one after another in `t`, span `t`. */
  lemma {:induction false} LaidOutSpans(p: Pattern, best: seq<string>, t: string)
    requires |best| == |p| && ItemsNotBetter(p, best, t)
    requires forall i :: 0 <= i < |p| ==> Admits(p[i], best[i])
    ensures Spans(p, best, t, 0)
    decreases |p|
  {
    if p != [] {
      assert forall i :: 0 <= i < |p| - 1 ==> p[1..][i] == p[i + 1] && best[1..][i] == best[i + 1];
      LaidOutSpans(p[1..], best[1..], t[|best[0]|..]);
      assert t == best[0] + t[|best[0]|..];
      assert Concat(best) == best[0] + Concat(best[1..]);
    }
  }

  /**
   * The round trip of a pattern: parts that admit their items, laid out one after another,
   * each the first length its item tries, are the match `re.match` returns.
   */
  lemma MatchLaidOut(p: Pattern, best: seq<string>, rest: string)
    requires |best| == |p| && ItemsNotBetter(p, best, LayOut(best, rest))
    requires forall i :: 0 <= i < |p| ==> Admits(p[i], best[i])
    ensures Match(p, LayOut(best, rest), 0) == Some(best)
  {
    LaidOutSpans(p, best, LayOut(best, rest));
    OptimalByItems(p, best, LayOut(best, rest));
    MatchIs(p, best, LayOut(best, rest));
  }

  /**
   * A greedy run followed by literal `lit` ends where `lit` starts, when `lit` holds `c` at
   * `extra`, no later start inside `lit` up to there begins `lit` again, and the text holds
   * no more `c` than the literals need.
   */
  lemma GreedyBeforeLiteral(p: Pattern, first: string, lit: string, tail: string, c: char, extra: nat)
    requires |p| >= 2 && p[0].Run? && p[0].greedy && p[1] == Lit(lit)
    requires extra < |lit| && lit[extra] == c
    requires forall i :: 0 < i <= extra ==> lit[i] != lit[0]
    requires Count(first + (lit + tail), c) <= LiteralCount(p, c)
    ensures FirstNotBetter(p, first, first + (lit + tail))
  {
    var t := first + (lit + tail);
    var k := |first| + extra;
    assert t[k] == lit[extra];
    forall m | |first| < m <= k ensures !(p[1].text <= t[m..]) {
      assert t[m] == lit[m - |first|];
      NotAt(lit, t, m);
    }
    GreedyStopsBefore(p, first, t, k, c);
  }

  /**
   * A greedy run followed by the one-character literal `sep` ends at the first `sep`, when
   * the text goes on with `mid` (free of `sep`) and then `c`, and holds no more `c` than
   * the literals need.
   */
  lemma GreedyBeforeSeparator(p: Pattern, first: string, sep: char, mid: string, c: char, tail: string)
    requires |p| >= 2 && p[0].Run? && p[0].greedy && p[1] == Lit([sep])
    requires sep != c && forall i :: 0 <= i < |mid| ==> mid[i] != sep
    requires Count(first + ([sep] + (mid + ([c] + tail))), c) <= LiteralCount(p, c)
    ensures FirstNotBetter(p, first, first + ([sep] + (mid + ([c] + tail))))
  {
    var t := first + ([sep] + (mid + ([c] + tail)));
    var k := |first| + 1 + |mid|;
    assert t[k] == c;
    forall m | |first| < m <= k ensures !(p[1].text <= t[m..]) {
      if m < k {
        assert t[m] == mid[m - |first| - 1];
      }
      NotAt([sep], t, m);
    }
    GreedyStopsBefore(p, first, t, k, c);
  }

  /** A greedy run followed by text that starts outside its class ends there. */
  lemma GreedyBeforeOther(p: Pattern, first: string, next: string)
    requires p != [] && p[0].Run? && p[0].greedy
    requires next == [] || !InClass(p[0].cls, next[0])
    ensures FirstNotBetter(p, first, first + next)
  {
    var t := first + next;
    if next != [] {
      assert t[|first|] == next[0];
    }
    GreedyStopsAtClass(p, first, t);
  }

  /** Literals never compete: nothing is tried before them. */
  lemma LiteralFirst(p: Pattern, first: string, t: string)
    requires p != [] && p[0].Lit?
    ensures FirstNotBetter(p, first, t)
  {
  }

  /** The first character of `lit` does not come back up to index `extra`. */
  predicate NoRepeatBefore(lit: string, extra: nat)
    requires extra < |lit|
  {
    forall i :: 0 < i <= extra ==> lit[i] != lit[0]
  }

  predicate Lacks(s: string, c: char) {
    forall i :: 0 <= i < |s| ==> s[i] != c
  }

  /*
   * The same facts for item `j` of a laid-out decomposition `best` (followed by `rest`), in the
   * form the walk of `ItemsStep` and `CountStep` takes them.
   */

  /** A literal item: nothing competes, and it adds only its own occurrences of `c`. */
  lemma LiteralItem(p: Pattern, best: seq<string>, j: nat, rest: string, c: char)
    requires |best| == |p| && j < |p| && p[j].Lit? && best[j] == p[j].text
    requires Count(LayOut(best[j + 1..], rest), c) <= LiteralCount(p[j + 1..], c)
    ensures Count(LayOut(best[j..], rest), c) <= LiteralCount(p[j..], c)
    ensures FirstNotBetter(p[j..], best[j], LayOut(best[j..], rest))
  {
    CountStep(p, best, j, rest, c);
    LiteralFirst(p[j..], best[j], LayOut(best[j..], rest));
  }

  /** A greedy run item followed by a literal that holds `c` before any repeat of its first character. */
  lemma RunBeforeLiteralItem(p: Pattern, best: seq<string>, j: nat, rest: string, c: char, extra: nat)
    requires |best| == |p| && j + 1 < |p| && p[j].Run? && p[j].greedy
    requires p[j + 1].Lit? && best[j + 1] == p[j + 1].text
    requires extra < |best[j + 1]| && best[j + 1][extra] == c
    requires NoRepeatBefore(best[j + 1], extra)
    requires Count(best[j], c) == 0
    requires Count(LayOut(best[j + 1..], rest), c) <= LiteralCount(p[j + 1..], c)
    ensures Count(LayOut(best[j..], rest), c) <= LiteralCount(p[j..], c)
    ensures FirstNotBetter(p[j..], best[j], LayOut(best[j..], rest))
  {
    CountStep(p, best, j, rest, c);
    LayOutStep(best, j, rest);
    LayOutStep(best, j + 1, rest);
    assert p[j..][0] == p[j] && p[j..][1] == Lit(best[j + 1]);
    GreedyBeforeLiteral(p[j..], best[j], best[j + 1], LayOut(best[j + 2..], rest), c, extra);
  }

  /**
   * A greedy run item followed by a one-character literal separator, a part free of that
   * separator, and a part that starts with `c`.
   */
  lemma RunBeforeSeparatorItem(p: Pattern, best: seq<string>, j: nat, rest: string, c: char)
    requires |best| == |p| && j + 3 < |p| && p[j].Run? && p[j].greedy
    requires p[j + 1].Lit? && best[j + 1] == p[j + 1].text && |best[j + 1]| == 1 && best[j + 1][0] != c
    requires Lacks(best[j + 2], best[j + 1][0])
    requires best[j + 3] != [] && best[j + 3][0] == c
    requires Count(best[j], c) == 0
    requires Count(LayOut(best[j + 1..], rest), c) <= LiteralCount(p[j + 1..], c)
    ensures Count(LayOut(best[j..], rest), c) <= LiteralCount(p[j..], c)
    ensures FirstNotBetter(p[j..], best[j], LayOut(best[j..], rest))
  {
    CountStep(p, best, j, rest, c);
    LayOutStep(best, j, rest);
    LayOutStep(best, j + 1, rest);
    LayOutStep(best, j + 2, rest);
    LayOutStep(best, j + 3, rest);
    var sep := best[j + 1][0];
    var tail := best[j + 3][1..] + LayOut(best[j + 4..], rest);
    assert best[j + 1] == [sep];
    assert best[j + 3] + LayOut(best[j + 4..], rest) == [c] + tail;
    assert p[j..][0] == p[j] && p[j..][1] == Lit([sep]);
    GreedyBeforeSeparator(p[j..], best[j], sep, best[j + 2], c, tail);
  }

  /** A greedy run item followed by text (the next part, or `rest` at the end) that starts outside its class. */
  lemma RunBeforeOtherItem(p: Pattern, best: seq<string>, j: nat, rest: string, c: char)
    requires |best| == |p| && j < |p| && p[j].Run? && p[j].greedy
    requires j + 1 < |p| ==> best[j + 1] != [] && !InClass(p[j].cls, best[j + 1][0])
    requires j + 1 == |p| ==> rest == [] || !InClass(p[j].cls, rest[0])
    requires Count(best[j], c) == 0
    requires Count(LayOut(best[j + 1..], rest), c) <= LiteralCount(p[j + 1..], c)
    ensures Count(LayOut(best[j..], rest), c) <= LiteralCount(p[j..], c)
    ensures FirstNotBetter(p[j..], best[j], LayOut(best[j..], rest))
  {
    CountStep(p, best, j, rest, c);
    LayOutStep(best, j, rest);
    if j + 1 < |p| {
      LayOutStep(best, j + 1, rest);
    } else {
      assert best[j + 1..] == [];
    }
    GreedyBeforeOther(p[j..], best[j], LayOut(best[j + 1..], rest));
  }

  /** A lazy run item (or a present optional group) ends where a literal that starts with a character it lacks follows. */
  lemma LazyBeforeLiteralItem(p: Pattern, best: seq<string>, j: nat, rest: string)
    requires |best| == |p| && j + 1 < |p|
    requires (p[j].Run? && !p[j].greedy && p[j].min >= 1) || (p[j].OptionalLazy? && best[j] != "")
    requires p[j + 1].Lit? && best[j + 1] == p[j + 1].text && best[j + 1] != []
    requires Lacks(best[j], best[j + 1][0])
    ensures FirstNotBetter(p[j..], best[j], LayOut(best[j..], rest))
  {
    LayOutStep(best, j, rest);
    var t := LayOut(best[j..], rest);
    assert p[j..][0] == p[j] && p[j..][1] == p[j + 1];
    forall m | 0 < m < |best[j]| ensures !(p[j + 1].text <= t[m..]) {
      assert t[m] == best[j][m];
      NotAt(best[j + 1], t, m);
    }
    LazyStopsAtLiteral(p[j..], best[j], t);
  }

  /**
   * An optional lazy group left out, ahead of a literal that starts with `c`, stays out when
   * the text from there on holds no more `c` than the literals need.
   */
  lemma OptionalAbsentItem(p: Pattern, best: seq<string>, j: nat, rest: string, c: char)
    requires |best| == |p| && j + 1 < |p| && p[j].OptionalLazy? && best[j] == ""
    requires p[j + 1].Lit? && best[j + 1] == p[j + 1].text && best[j + 1] != [] && best[j + 1][0] == c
    requires Count(LayOut(best[j..], rest), c) <= LiteralCount(p[j..], c)
    ensures FirstNotBetter(p[j..], best[j], LayOut(best[j..], rest))
  {
    var t := LayOut(best[j..], rest);
    LayOutStep(best, j, rest);
    LayOutStep(best, j + 1, rest);
    assert t[0] == c;
    assert p[j..][0] == p[j];
    forall d | Spans(p[j..], d, t, 0) ensures !Better(p[j..][0], |d[0]|, |best[j]|) {
      NoneAbsorbed(p[j..], d, t, c);
      FirstPartIsHead(p[j..], d, t);
    }
  }

  /** A greedy run item followed by text (the next part, or `rest` at the end) that starts outside its class. */
  lemma GreedyBeforeOtherItem(p: Pattern, best: seq<string>, j: nat, rest: string)
    requires |best| == |p| && j < |p| && p[j].Run? && p[j].greedy
    requires j + 1 < |p| ==> best[j + 1] != [] && !InClass(p[j].cls, best[j + 1][0])
    requires j + 1 == |p| ==> rest == [] || !InClass(p[j].cls, rest[0])
    ensures FirstNotBetter(p[j..], best[j], LayOut(best[j..], rest))
  {
    LayOutStep(best, j, rest);
    if j + 1 < |p| {
      LayOutStep(best, j + 1, rest);
    } else {
      assert best[j + 1..] == [];
    }
    GreedyBeforeOther(p[j..], best[j], LayOut(best[j + 1..], rest));
  }

  /**
   * The occurrences of `c` laid out from item `j` on are at most the literals', when every
   * literal item holds its text, no run item holds `c`, and neither does `rest`.
   */
  lemma {:induction false} CountFrom(p: Pattern, best: seq<string>, j: nat, rest: string, c: char)
    requires |best| == |p| && j <= |p| && Count(rest, c) == 0
    requires forall i :: j <= i < |p| ==> if p[i].Lit? then best[i] == p[i].text else Count(best[i], c) == 0
    ensures Count(LayOut(best[j..], rest), c) <= LiteralCount(p[j..], c)
    decreases |p| - j
  {
    if j == |p| {
      CountDone(p, best, rest, c);
    } else {
      CountFrom(p, best, j + 1, rest, c);
      CountStep(p, best, j, rest, c);
    }
  }

  /** When no item from `j` on can take another length, the walk from `j` on is optimal item by item. */
  lemma {:induction false} WalkFrom(p: Pattern, best: seq<string>, rest: string, j: nat)
    requires |best| == |p| && j <= |p|
    requires forall i :: j <= i < |p| ==> FirstNotBetter(p[i..], best[i], LayOut(best[i..], rest))
    ensures ItemsNotBetter(p[j..], best[j..], LayOut(best[j..], rest))
    decreases |p| - j
  {
    if j == |p| {
      ItemsDone(p, best, rest);
    } else {
      WalkFrom(p, best, rest, j + 1);
      ItemsStep(p, best, j, rest);
    }
  }

  /**
   * The round trip of a pattern, item by item: parts that admit their items, laid out one
   * after another, where no item could have taken a length the search tries first, are the
   * match `re.match` returns.
   */
  lemma MatchByItems(p: Pattern, best: seq<string>, rest: string)
    requires |best| == |p|
    requires forall i :: 0 <= i < |p| ==> Admits(p[i], best[i])
    requires forall i :: 0 <= i < |p| ==> FirstNotBetter(p[i..], best[i], LayOut(best[i..], rest))
    ensures Match(p, LayOut(best, rest), 0) == Some(best)
  {
    WalkFrom(p, best, rest, 0);
    assert p[0..] == p && best[0..] == best;
    MatchLaidOut(p, best, rest);
  }
}
