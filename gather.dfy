/**
 * Running over a list of per-item outcomes the way the parser's for-loops do: an item that
 * gives nothing is skipped, a record is appended, and the first exception ends the loop.
 */
module Gather {
  import opened Wrappers

  /** `us` followed by the records of a later outcome, or that outcome's error. */
  function Prepend<T>(us: seq<T>, r: Result<seq<T>>): (s: Result<seq<T>>)
    ensures s.Ok? <==> r.Ok?
    ensures s.Ok? ==> |s.value| == |us| + |r.value| && s.value[..|us|] == us && s.value[|us|..] == r.value
  {
    match r
    case Ok(vs) => Ok(us + vs)
    case Err(e) => Err(e)
  }

  /** One item's outcome, ahead of the outcome of the items after it. */
  function Then<T>(out: Option<Result<T>>, rest: Result<seq<T>>): Result<seq<T>> {
    match out
    case None => rest
    case Some(Err(e)) => Err(e)
    case Some(Ok(u)) => Prepend([u], rest)
  }

  /** The outcomes collected front to back: the records in order, or the first error. */
  function Collect<T>(outs: seq<Option<Result<T>>>): (r: Result<seq<T>>)
    ensures r.Ok? ==> |r.value| <= |outs|
    decreases |outs|
  {
    if outs == [] then Ok([]) else Then(outs[0], Collect(outs[1..]))
  }

  lemma CollectFrom<T>(outs: seq<Option<Result<T>>>, i: nat)
    requires i < |outs|
    ensures Collect(outs[i..]) == Then(outs[i], Collect(outs[i + 1..]))
  {
    assert outs[i..][0] == outs[i] && outs[i..][1..] == outs[i + 1..];
  }

  lemma PrependAssoc<T>(us: seq<T>, u: T, r: Result<seq<T>>)
    ensures Prepend(us, Prepend([u], r)) == Prepend(us + [u], r)
  {
    if r.Ok? {
      assert us + ([u] + r.value) == (us + [u]) + r.value;
    }
  }

  /** Positions listed in increasing order. */
  predicate Increasing(idx: seq<nat>) {
    forall k, l :: 0 <= k < l < |idx| ==> idx[k] < idx[l]
  }

  /** `idx` with every position one further on. */
  lemma Shifted(idx: seq<nat>) returns (r: seq<nat>)
    requires Increasing(idx)
    ensures |r| == |idx| && Increasing(r)
    ensures forall k :: 0 <= k < |idx| ==> r[k] == idx[k] + 1
    ensures forall i :: i in idx ==> i + 1 in r
  {
    r := seq(|idx|, k requires 0 <= k < |idx| => idx[k] + 1);
    forall i | i in idx ensures i + 1 in r {
      var k :| 0 <= k < |idx| && idx[k] == i;
      assert r[k] == i + 1;
    }
  }

  /** Position 0 ahead of later positions. */
  lemma ZeroFirst(r: seq<nat>)
    requires Increasing(r) && forall k :: 0 <= k < |r| ==> r[k] >= 1
    ensures Increasing([0] + r)
  {
    var z := [0] + r;
    forall k, l | 0 <= k < l < |z| ensures z[k] < z[l] {
      assert z[l] == r[l - 1];
      if k > 0 { assert z[k] == r[k - 1]; }
    }
  }

  /**
   * The collected records come from the outcomes that are records, in order, one each,
   * and from no other: `idx` lists the positions they come from.
   */
  lemma {:induction false} CollectIndices<T>(outs: seq<Option<Result<T>>>) returns (idx: seq<nat>)
    ensures Collect(outs).Ok? ==>
      var us := Collect(outs).value;
      |idx| == |us| && Increasing(idx) &&
      (forall k :: 0 <= k < |idx| ==> idx[k] < |outs| && outs[idx[k]] == Some(Ok(us[k]))) &&
      (forall i :: 0 <= i < |outs| && outs[i].Some? ==> i in idx)
    decreases |outs|
  {
    if outs == [] || Collect(outs).Err? {
      idx := [];
    } else {
      var tail := CollectIndices(outs[1..]);
      var vs := Collect(outs[1..]).value;
      var later := Shifted(tail);
      forall k | 0 <= k < |tail| ensures 1 <= later[k] < |outs| && outs[later[k]] == Some(Ok(vs[k])) {
        assert outs[later[k]] == outs[1..][tail[k]];
      }
      forall i | 0 < i < |outs| && outs[i].Some? ensures i in later {
        assert outs[1..][i - 1] == outs[i];
        assert (i - 1) in tail;
      }
      idx := IndicesStep(outs, later);
    }
  }

  /** The positions of the records, from those of the records after the first outcome. */
  lemma IndicesStep<T>(outs: seq<Option<Result<T>>>, later: seq<nat>) returns (idx: seq<nat>)
    requires outs != [] && Collect(outs).Ok?
    requires var vs := Collect(outs[1..]).value;
      |later| == |vs| && Increasing(later) &&
      (forall k :: 0 <= k < |later| ==> 1 <= later[k] < |outs| && outs[later[k]] == Some(Ok(vs[k]))) &&
      (forall i :: 0 < i < |outs| && outs[i].Some? ==> i in later)
    ensures var us := Collect(outs).value;
      |idx| == |us| && Increasing(idx) &&
      (forall k :: 0 <= k < |idx| ==> idx[k] < |outs| && outs[idx[k]] == Some(Ok(us[k]))) &&
      (forall i :: 0 <= i < |outs| && outs[i].Some? ==> i in idx)
  {
    var vs := Collect(outs[1..]).value;
    var us := Collect(outs).value;
    if outs[0].Some? {
      assert outs[0].value.Ok?;
      assert us == [outs[0].value.value] + vs;
      ZeroFirst(later);
      idx := [0] + later;
      forall k | 0 <= k < |idx| ensures idx[k] < |outs| && outs[idx[k]] == Some(Ok(us[k])) {
        if k > 0 {
          assert idx[k] == later[k - 1] && us[k] == vs[k - 1];
        }
      }
      forall i | 0 <= i < |outs| && outs[i].Some? ensures i in idx {
        if i == 0 { assert idx[0] == 0; } else { assert i in later; }
      }
    } else {
      assert us == vs;
      idx := later;
    }
  }

  /** Collecting fails exactly when some outcome is an error, and then with the first error. */
  lemma {:induction false} CollectFails<T>(outs: seq<Option<Result<T>>>)
    ensures Collect(outs).Err? <==> exists i :: 0 <= i < |outs| && outs[i].Some? && outs[i].value.Err?
    ensures Collect(outs).Err? ==>
      exists i :: 0 <= i < |outs| && outs[i] == Some(Err(Collect(outs).error)) &&
        (forall j :: 0 <= j < i ==> !(outs[j].Some? && outs[j].value.Err?))
    decreases |outs|
  {
    if outs != [] {
      CollectFails(outs[1..]);
      assert forall i :: 1 <= i < |outs| ==> outs[i] == outs[1..][i - 1];
      if exists i :: 0 < i < |outs| && outs[i].Some? && outs[i].value.Err? {
        var i :| 0 < i < |outs| && outs[i].Some? && outs[i].value.Err?;
        assert outs[1..][i - 1] == outs[i];
      }
      if outs[0].Some? && outs[0].value.Err? {
        assert outs[0] == Some(Err(Collect(outs).error));
      } else if Collect(outs).Err? {
        var i :| 0 <= i < |outs[1..]| && outs[1..][i] == Some(Err(Collect(outs[1..]).error)) &&
          forall j :: 0 <= j < i ==> !(outs[1..][j].Some? && outs[1..][j].value.Err?);
        assert outs[i + 1] == Some(Err(Collect(outs).error));
      }
    }
  }

  /** What a loop does with an optional record or an exception: skip `None`, keep a record, stop at an error. */
  function Kept<T>(r: Result<Option<T>>): Option<Result<T>> {
    match r
    case Err(e) => Some(Err(e))
    case Ok(None) => None
    case Ok(Some(v)) => Some(Ok(v))
  }

  function KeptAll<T>(rs: seq<Result<Option<T>>>): (outs: seq<Option<Result<T>>>)
    ensures |outs| == |rs|
  {
    seq(|rs|, i requires 0 <= i < |rs| => Kept(rs[i]))
  }

  /**
   * Keeping the records of optional results: when no result is an error, the records kept
   * are those of the results that hold one, in order; `idx` lists where they come from.
   */
  lemma KeptIndices<T>(rs: seq<Result<Option<T>>>) returns (idx: seq<nat>)
    ensures Collect(KeptAll(rs)).Ok? ==>
      var vs := Collect(KeptAll(rs)).value;
      |idx| == |vs| && Increasing(idx) &&
      (forall k :: 0 <= k < |idx| ==> idx[k] < |rs| && rs[idx[k]] == Ok(Some(vs[k]))) &&
      (forall i :: 0 <= i < |rs| ==> rs[i].Ok? && (rs[i].value.Some? ==> i in idx))
  {
    var outs := KeptAll(rs);
    idx := CollectIndices(outs);
    CollectFails(outs);
    assert forall i :: 0 <= i < |rs| ==> outs[i] == Kept(rs[i]);
  }

  /** Keeping fails exactly when some result is an error, and then with the first one. */
  lemma KeptFails<T>(rs: seq<Result<Option<T>>>)
    ensures Collect(KeptAll(rs)).Err? <==> exists i :: 0 <= i < |rs| && rs[i].Err?
    ensures Collect(KeptAll(rs)).Err? ==>
      exists i :: 0 <= i < |rs| && rs[i] == Err(Collect(KeptAll(rs)).error) &&
        forall j :: 0 <= j < i ==> rs[j].Ok?
  {
    var outs := KeptAll(rs);
    CollectFails(outs);
    assert forall i :: 0 <= i < |rs| ==> outs[i] == Kept(rs[i]);
  }
}
