/**
 * The main program's parsing: the `lmutil lmstat` report is cut at every `Users of `, the
 * text before the first one (the server part) is dropped, the last section is cut at
 * `NOTE:`, and each section is read by `extract_feature`; the records it gives are kept in
 * order.
 */
module Report {
  import opened Wrappers
  import opened Text
  import opened Calendar
  import opened Records
  import opened Gather
  import opened Features

  const Delimiter: string := "Users of "
  const Note: string := "NOTE:"

  /**
   * The sections of a report: the pieces of `report.split('Users of ')` after the first, the
   * last one cut before its first `NOTE:`; `IndexError` when there are none (the source
   * assigns to `features_data[-1]` of an empty list).
   */
  function Chunks(report: string): Result<seq<string>> {
    Sections(Split(report, Delimiter))
  }

  /** The sections, from the pieces of the split report. */
  function Sections(pieces: seq<string>): Result<seq<string>>
    requires |pieces| >= 1
  {
    var rest := pieces[1..];
    if rest == [] then Err(IndexError)
    else Ok(rest[..|rest| - 1] + [Split(rest[|rest| - 1], Note)[0]])
  }

  /** What `extract_feature` gives for each section, in order; section `i` is stamped with `stampAt(i)`. */
  function SectionResults(chunks: seq<string>, stampAt: nat -> string, lmversion: Option<string>, now: DateTime)
    : (rs: seq<Result<Option<Feature>>>)
    requires IsValid(now)
    ensures |rs| == |chunks|
  {
    seq(|chunks|, i requires 0 <= i < |chunks| => FeatureOf(chunks[i], stampAt(i), lmversion, now))
  }

  /**
   * The features the main program collects from `status_report`: `None` when the report is
   * empty (nothing is parsed), else the records of the sections in order, or the first
   * exception raised.
   */
  function ReportOf(report: string, stampAt: nat -> string, lmversion: Option<string>, now: DateTime)
    : Result<Option<seq<Feature>>>
    requires IsValid(now)
  {
    if report == "" then Ok(None)
    else match Chunks(report)
      case Err(e) => Err(e)
      case Ok(chunks) =>
        match Collected(chunks, stampAt, lmversion, now)
        case Err(e) => Err(e)
        case Ok(fs) => Ok(Some(fs))
  }

  /** The records of the sections, in order, or the first exception. */
  function Collected(chunks: seq<string>, stampAt: nat -> string, lmversion: Option<string>, now: DateTime)
    : Result<seq<Feature>>
    requires IsValid(now)
  {
    Collect(KeptAll(SectionResults(chunks, stampAt, lmversion, now)))
  }

  /**
   * The main program's parsing: split, `pop(0)`, cut the last section at `NOTE:`, then the
   * for-loop that appends every record `extract_feature` gives.
   */
  method ParseReport(report: string, stampAt: nat -> string, lmversion: Option<string>, now: DateTime)
    returns (r: Result<Option<seq<Feature>>>)
    requires IsValid(now)
    ensures r == ReportOf(report, stampAt, lmversion, now)
  {
    if report == "" {
      return Ok(None);
    }
    var featuresData := Split(report, Delimiter);
    featuresData := featuresData[1..];
    if |featuresData| == 0 {
      return Err(IndexError);
    }
    var last := |featuresData| - 1;
    featuresData := featuresData[last := Split(featuresData[last], Note)[0]];
    assert featuresData == Chunks(report).value;
    ghost var rs := SectionResults(featuresData, stampAt, lmversion, now);
    ghost var outs := KeptAll(rs);
    var features: seq<Feature> := [];
    var i := 0;
    while i < |featuresData|
      invariant 0 <= i <= |featuresData|
      invariant Collect(outs) == Prepend(features, Collect(outs[i..]))
    {
      CollectFrom(outs, i);
      var lmf := ExtractFeature(featuresData[i], stampAt(i), lmversion, now);
      assert outs[i] == Kept(lmf);
      match lmf {
        case Err(e) =>
          assert Collect(outs[i..]) == Err(e);
          return Err(e);
        case Ok(None) =>
        case Ok(Some(f)) =>
          PrependAssoc(features, f, Collect(outs[i + 1..]));
          features := features + [f];
      }
      i := i + 1;
    }
    assert outs[i..] == [];
    assert features + [] == features;
    r := Ok(Some(features));
  }

  // ---------------------------------------------------------------------------
  // Properties

  /**
   * A report has sections exactly when it holds `Users of `; every section but the last is
   * the text between two consecutive `Users of `; the last is the text after the last one,
   * up to its first `NOTE:` if it has one; no section holds `Users of ` and the last holds
   * no `NOTE:`.
   */
  lemma ChunksOfReport(report: string)
    ensures Chunks(report).Ok? <==> Contains(report, Delimiter)
    ensures Chunks(report).Err? ==> Chunks(report).error == IndexError
    ensures Chunks(report).Ok? ==>
      var pieces := Split(report, Delimiter); var chunks := Chunks(report).value;
      var n := |chunks|; var lastPiece := pieces[n];
      |pieces| == n + 1 &&
      (forall k :: 0 <= k < n - 1 ==> chunks[k] == pieces[k + 1]) &&
      |chunks[n - 1]| <= |lastPiece| && chunks[n - 1] == lastPiece[..|chunks[n - 1]|] &&
      (Contains(lastPiece, Note) ==> OccursAt(lastPiece, Note, |chunks[n - 1]|)) &&
      (!Contains(lastPiece, Note) ==> chunks[n - 1] == lastPiece) &&
      !Contains(chunks[n - 1], Note) &&
      (forall k :: 0 <= k < n ==> !Contains(chunks[k], Delimiter))
  {
    var pieces := Split(report, Delimiter);
    SplitCount(report, Delimiter);
    if |pieces| > 1 {
      SectionsShape(pieces);
    }
  }

  /** The sections cut from pieces that hold no delimiter. */
  lemma SectionsShape(pieces: seq<string>)
    requires |pieces| > 1
    requires forall k :: 0 <= k < |pieces| ==> !Contains(pieces[k], Delimiter)
    ensures Sections(pieces).Ok?
    ensures var chunks := Sections(pieces).value;
      var n := |chunks|; var lastPiece := pieces[n];
      |pieces| == n + 1 &&
      (forall k :: 0 <= k < n - 1 ==> chunks[k] == pieces[k + 1]) &&
      |chunks[n - 1]| <= |lastPiece| && chunks[n - 1] == lastPiece[..|chunks[n - 1]|] &&
      (Contains(lastPiece, Note) ==> OccursAt(lastPiece, Note, |chunks[n - 1]|)) &&
      (!Contains(lastPiece, Note) ==> chunks[n - 1] == lastPiece) &&
      !Contains(chunks[n - 1], Note) &&
      (forall k :: 0 <= k < n ==> !Contains(chunks[k], Delimiter))
  {
    var lastPiece := pieces[|pieces| - 1];
    SplitHead(lastPiece, Note);
    var head := Split(lastPiece, Note)[0];
    assert !Contains(head, Delimiter) by {
      forall i: nat | i <= |head| && OccursAt(head, Delimiter, i) ensures OccursAt(lastPiece, Delimiter, i) {
        assert head[i..i + |Delimiter|] == lastPiece[i..i + |Delimiter|];
      }
    }
  }

  /**
   * The sections read back: server text, then each section after `Users of `, then either
   * nothing or a trailer starting with `NOTE:`, give back exactly the sections, provided no
   * part holds `Users of ` and the last section holds no `NOTE:`.
   */
  lemma ChunksRoundTrip(server: string, chunks: seq<string>, trailer: string)
    requires |chunks| >= 1
    requires !Contains(server, Delimiter) && forall k :: 0 <= k < |chunks| - 1 ==> !Contains(chunks[k], Delimiter)
    requires !Contains(chunks[|chunks| - 1] + trailer, Delimiter) && !Contains(chunks[|chunks| - 1], Note)
    requires trailer == "" || (|Note| <= |trailer| && trailer[..|Note|] == Note)
    ensures Chunks(server + Delimiter + Join(chunks, Delimiter) + trailer) == Ok(chunks)
  {
    var pieces := SplitReport(server, chunks, trailer);
    SectionsOfPieces(pieces, chunks, trailer);
  }

  lemma SectionsOfPieces(pieces: seq<string>, chunks: seq<string>, trailer: string)
    requires |chunks| >= 1
    requires !Contains(chunks[|chunks| - 1], Note)
    requires trailer == "" || (|Note| <= |trailer| && trailer[..|Note|] == Note)
    requires |pieces| >= 1 && pieces[1..] == chunks[..|chunks| - 1] + [chunks[|chunks| - 1] + trailer]
    ensures Sections(pieces) == Ok(chunks)
  {
    var n := |chunks|;
    var tail := pieces[1..];
    assert tail[..|tail| - 1] == chunks[..n - 1] && tail[|tail| - 1] == chunks[n - 1] + trailer;
    CutAtNote(chunks[n - 1], trailer);
    assert chunks[..n - 1] + [chunks[n - 1]] == chunks;
  }

  lemma SplitReport(server: string, chunks: seq<string>, trailer: string) returns (pieces: seq<string>)
    requires |chunks| >= 1
    requires !Contains(server, Delimiter) && forall k :: 0 <= k < |chunks| - 1 ==> !Contains(chunks[k], Delimiter)
    requires !Contains(chunks[|chunks| - 1] + trailer, Delimiter)
    ensures |pieces| >= 1 && pieces[1..] == chunks[..|chunks| - 1] + [chunks[|chunks| - 1] + trailer]
    ensures Split(server + Delimiter + Join(chunks, Delimiter) + trailer, Delimiter) == pieces
  {
    var n := |chunks|;
    pieces := [server] + chunks[..n - 1] + [chunks[n - 1] + trailer];
    JoinAppend([server] + chunks, Delimiter, trailer);
    assert ([server] + chunks)[..n] == [server] + chunks[..n - 1];
    assert ([server] + chunks)[1..] == chunks;
    assert Join([server] + chunks, Delimiter) == server + Delimiter + Join(chunks, Delimiter);
    forall k | 0 <= k < |pieces| ensures !Contains(pieces[k], Delimiter) {
      if 0 < k < n {
        assert pieces[k] == chunks[k - 1];
      }
    }
    SplitJoinPieces(pieces, Delimiter);
    assert pieces[1..] == chunks[..n - 1] + [chunks[n - 1] + trailer];
  }

  lemma CutAtNote(last: string, trailer: string)
    requires !Contains(last, Note)
    requires trailer == "" || (|Note| <= |trailer| && trailer[..|Note|] == Note)
    ensures Split(last + trailer, Note)[0] == last
  {
    if trailer == "" {
      SplitHead(last, Note);
      assert last + trailer == last;
    } else {
      FirstSeparator(last, Note, trailer[|Note|..]);
      assert last + trailer == last + Note + trailer[|Note|..];
    }
  }

  /** An empty report is not parsed; a report without `Users of ` raises `IndexError`. */
  lemma ReportWithoutSections(report: string, stampAt: nat -> string, lmversion: Option<string>, now: DateTime)
    requires IsValid(now)
    ensures report == "" ==> ReportOf(report, stampAt, lmversion, now) == Ok(None)
    ensures report != "" && !Contains(report, Delimiter) ==> ReportOf(report, stampAt, lmversion, now) == Err(IndexError)
    ensures ReportOf(report, stampAt, lmversion, now) == Ok(None) ==> report == ""
  {
    ChunksOfReport(report);
  }

  /**
   * The records collected are those of the sections that give one, in section order and
   * each with its own section's stamp; `idx` lists the sections they come from, and every
   * section that gives a record is listed.
   */
  lemma SectionFeatures(chunks: seq<string>, stampAt: nat -> string, lmversion: Option<string>, now: DateTime)
    returns (idx: seq<nat>)
    requires IsValid(now)
    ensures var rs := SectionResults(chunks, stampAt, lmversion, now);
      Collected(chunks, stampAt, lmversion, now).Ok? ==>
      var fs := Collected(chunks, stampAt, lmversion, now).value;
      |idx| == |fs| && Increasing(idx) &&
      (forall k :: 0 <= k < |idx| ==> idx[k] < |chunks| && rs[idx[k]] == Ok(Some(fs[k]))) &&
      (forall i :: 0 <= i < |chunks| ==> rs[i].Ok? && (rs[i].value.Some? ==> i in idx))
  {
    idx := KeptIndices(SectionResults(chunks, stampAt, lmversion, now));
  }

  /**
   * Parsing fails exactly when some section raises, and then with the exception of the
   * first section that raises.
   */
  lemma SectionFails(chunks: seq<string>, stampAt: nat -> string, lmversion: Option<string>, now: DateTime)
    requires IsValid(now)
    ensures var r := Collected(chunks, stampAt, lmversion, now); var rs := SectionResults(chunks, stampAt, lmversion, now);
      (r.Err? <==> exists i :: 0 <= i < |chunks| && rs[i].Err?) &&
      (r.Err? ==> exists i :: 0 <= i < |chunks| && rs[i] == Err(r.error) && forall j :: 0 <= j < i ==> rs[j].Ok?)
  {
    KeptFails(SectionResults(chunks, stampAt, lmversion, now));
  }
}
