/**
  The range builder: the loop of the CVE-registry parser that turns every
  affected entry of one advisory into a `Version`, lifted out as a pure
  computation. Entries are sanitised first; a surviving entry is classified by
  which comparator it carries, and a bare major.minor entry with no comparator
  raises the flag that asks for the merge pass.

  The comparator-aware bound extractor and the final prefix trim are helpers
  that are not part of this model; both are parameters here.
 */
module RangeBuilder {
  import opened Optional
  import opened GoStrings
  import opened Vuln
  import opened Sanitizer
  import AffectedEvents
  import RangeMerger

  /** The comparator argument the extractor receives: "lessThenEqual", "lessThen" or "". */
  datatype Comparator = LessThenEqual | LessThen | NoComparator

  /** The bound extractor: (bound text, version text, comparator) to (introduced, lastAffected). */
  type Extractor = (string, string, Comparator) -> (string, string)

  /** A sanitised entry with no comparator whose version has exactly one dot: a series marker. */
  predicate IsSeriesMarker(c: MitreVersion) {
    && Blank(c.lessThanOrEqual)
    && Blank(c.lessThan)
    && CountChar(c.version, '.') == 1
  }

  /** The `Version` one sanitised entry yields, chosen by which comparator it carries. */
  function Classify(c: MitreVersion, extract: Extractor): (r: Version)
    // an inclusive bound: both ends come from the extractor, no fixed version
    ensures !Blank(c.lessThanOrEqual) ==>
      && r.fixed == ""
      && (r.introduced, r.lastAffected) == extract(c.lessThanOrEqual, c.version, LessThenEqual)
    // an exclusive bound: it is the fixed version; a ".0" bound means affected from the start
    ensures Blank(c.lessThanOrEqual) && !Blank(c.lessThan) ==>
      && r.fixed == c.lessThan
      && r.lastAffected == extract(c.lessThan, c.version, LessThen).1
      && (HasSuffix(c.lessThan, ".0") ==> r.introduced == "0")
      && (!HasSuffix(c.lessThan, ".0") ==> r.introduced == extract(c.lessThan, c.version, LessThen).0)
    // a series marker: the bare major.minor is the lower bound, nothing else is known yet
    ensures IsSeriesMarker(c) ==> r == Version(c.version, "", "")
    // any other bare version: a point range from the extractor
    ensures Blank(c.lessThanOrEqual) && Blank(c.lessThan) && !IsSeriesMarker(c) ==>
      r == Version(extract("", c.version, NoComparator).0, "", extract("", c.version, NoComparator).1)
  {
    if !Blank(c.lessThanOrEqual) then
      var (from, to) := extract(c.lessThanOrEqual, c.version, LessThenEqual);
      Version(from, "", to)
    else if !Blank(c.lessThan) then
      var (from0, to) := extract(c.lessThan, c.version, LessThen);
      var from := if HasSuffix(c.lessThan, ".0") then "0" else from0;
      Version(from, c.lessThan, to)
    else if CountChar(c.version, '.') == 1 then
      Version(c.version, "", "")
    else
      var (from, to) := extract("", c.version, NoComparator);
      Version(from, "", to)
  }

  /** The entry sanitiser the loop calls: `v => Sanitize(v, trim)` in the collector. */
  type Sanitiser = MitreVersion -> Option<MitreVersion>

  /**
    The entries the builder keeps, in encounter order: those whose status is
    "affected" and that the sanitiser does not reject, each in sanitised form.
   */
  function Accepted(entries: seq<MitreVersion>, sanitize: Sanitiser): (r: seq<MitreVersion>)
    ensures |r| <= |entries|
    decreases |entries|
  {
    if |entries| == 0 then []
    else
      var front := Accepted(entries[..|entries| - 1], sanitize);
      var e := entries[|entries| - 1];
      if e.status == "affected" && sanitize(e).Some? then front + [sanitize(e).value]
      else front
  }

  /** Extending the entry list by one entry extends the accepted list by at most that entry. */
  lemma AcceptedSnoc(entries: seq<MitreVersion>, i: nat, sanitize: Sanitiser)
    requires i < |entries|
    ensures var e := entries[i];
      Accepted(entries[..i + 1], sanitize) ==
        Accepted(entries[..i], sanitize)
        + (if e.status == "affected" && sanitize(e).Some? then [sanitize(e).value] else [])
  {
    assert entries[..i + 1][..i] == entries[..i];
  }

  /**
    A sanitiser that rejects exactly the `Rejected` entries and clears the
    status of those it keeps: the contract of the registry's `Sanitize`.
   */
  ghost predicate RejectsAsRegistry(sanitize: Sanitiser) {
    forall v :: (sanitize(v).None? <==> Rejected(v)) && (sanitize(v).Some? ==> sanitize(v).value.status == "")
  }

  /** Kept means marked affected and not rejected; what is kept has its status cleared. */
  lemma {:induction false} AcceptedKeepsAffected(entries: seq<MitreVersion>, sanitize: Sanitiser)
    requires RejectsAsRegistry(sanitize)
    ensures var acc := Accepted(entries, sanitize);
      && (|acc| == 0 <==> forall j :: 0 <= j < |entries| ==> entries[j].status != "affected" || Rejected(entries[j]))
      && (forall k :: 0 <= k < |acc| ==> acc[k].status == "")
    decreases |entries|
  {
    if |entries| > 0 {
      var front := entries[..|entries| - 1];
      AcceptedKeepsAffected(front, sanitize);
      var e := entries[|entries| - 1];
      var acc := Accepted(entries, sanitize);
      var facc := Accepted(front, sanitize);
      if e.status == "affected" && !Rejected(e) {
        assert acc == facc + [sanitize(e).value];
      } else {
        assert acc == facc;
        if |facc| == 0 {
          forall j | 0 <= j < |entries|
            ensures entries[j].status != "affected" || Rejected(entries[j])
          {
            if j < |front| {
              assert entries[j] == front[j];
            }
          }
        } else {
          var j :| 0 <= j < |front| && !(front[j].status != "affected" || Rejected(front[j]));
          assert entries[j] == front[j];
        }
      }
    }
  }

  /** The registry's sanitiser meets that contract. */
  lemma SanitizeRejectsAsRegistry(trim: string -> string)
    ensures RejectsAsRegistry(v => Sanitize(v, trim))
  {
  }

  /** `Classify` applied to every entry, in order. */
  function ClassifyAll(acc: seq<MitreVersion>, extract: Extractor): (r: seq<Version>)
    ensures |r| == |acc|
    decreases |acc|
  {
    if |acc| == 0 then [] else ClassifyAll(acc[..|acc| - 1], extract) + [Classify(acc[|acc| - 1], extract)]
  }

  lemma {:induction false} ClassifyAllAt(acc: seq<MitreVersion>, extract: Extractor, k: nat)
    requires k < |acc|
    ensures ClassifyAll(acc, extract)[k] == Classify(acc[k], extract)
    decreases |acc|
  {
    if k < |acc| - 1 {
      ClassifyAllAt(acc[..|acc| - 1], extract, k);
    }
  }

  lemma ClassifyAllSnoc(acc: seq<MitreVersion>, v: MitreVersion, extract: Extractor)
    ensures ClassifyAll(acc + [v], extract) == ClassifyAll(acc, extract) + [Classify(v, extract)]
  {
    assert (acc + [v])[..|acc|] == acc;
  }

  /** Some entry of `acc` is a series marker (written recursively, so that it extends one entry at a time). */
  predicate AnySeriesMarker(acc: seq<MitreVersion>)
    decreases |acc|
  {
    |acc| > 0 && (AnySeriesMarker(acc[..|acc| - 1]) || IsSeriesMarker(acc[|acc| - 1]))
  }

  lemma {:induction false} AnySeriesMarkerExists(acc: seq<MitreVersion>)
    ensures AnySeriesMarker(acc) <==> exists k :: 0 <= k < |acc| && IsSeriesMarker(acc[k])
    decreases |acc|
  {
    if |acc| > 0 {
      var front := acc[..|acc| - 1];
      AnySeriesMarkerExists(front);
      if AnySeriesMarker(front) {
        var k :| 0 <= k < |front| && IsSeriesMarker(front[k]);
        assert acc[k] == front[k];
      }
      if exists k :: 0 <= k < |acc| && IsSeriesMarker(acc[k]) {
        ghost var k :| 0 <= k < |acc| && IsSeriesMarker(acc[k]);
        if k < |front| {
          assert front[k] == acc[k];
        }
      }
    }
  }

  lemma AnySeriesMarkerSnoc(acc: seq<MitreVersion>, v: MitreVersion)
    ensures AnySeriesMarker(acc + [v]) <==> AnySeriesMarker(acc) || IsSeriesMarker(v)
  {
    assert (acc + [v])[..|acc|] == acc;
  }

  /**
    The builder loop: one `Version` per accepted entry, in encounter order,
    and the merge flag, raised exactly when some accepted entry is a series
    marker.
   */
  method BuildVersions(entries: seq<MitreVersion>, extract: Extractor, sanitize: Sanitiser)
    returns (versions: seq<Version>, requireMerge: bool)
    ensures var acc := Accepted(entries, sanitize);
      && |versions| == |acc|
      && (forall k :: 0 <= k < |acc| ==> versions[k] == Classify(acc[k], extract))
    ensures requireMerge <==>
      exists k :: 0 <= k < |Accepted(entries, sanitize)| && IsSeriesMarker(Accepted(entries, sanitize)[k])
    // a raised flag means the merge scan will find a series lower bound to open
    ensures requireMerge ==> exists k :: 0 <= k < |versions| && RangeMerger.IsSeries(versions[k].introduced)
  {
    versions := [];
    requireMerge := false;
    ghost var acc: seq<MitreVersion> := [];
    var i := 0;
    while i < |entries|
      invariant 0 <= i <= |entries|
      invariant acc == Accepted(entries[..i], sanitize)
      invariant versions == ClassifyAll(acc, extract)
      invariant requireMerge <==> AnySeriesMarker(acc)
    {
      AcceptedSnoc(entries, i, sanitize);
      var sv := entries[i];
      if sv.status == "affected" {
        var sanitized := sanitize(sv);
        if sanitized.Some? {
          var v := sanitized.value;
          if IsSeriesMarker(v) {
            requireMerge := true;
          }
          versions := versions + [Classify(v, extract)];
          ClassifyAllSnoc(acc, v, extract);
          AnySeriesMarkerSnoc(acc, v);
          acc := acc + [v];
        }
      }
      i := i + 1;
    }
    assert entries[..|entries|] == entries;
    ClassifiedResult(acc, versions, requireMerge, extract);
  }

  /** What the loop's invariants give once every entry has been read. */
  lemma ClassifiedResult(acc: seq<MitreVersion>, versions: seq<Version>, requireMerge: bool, extract: Extractor)
    requires versions == ClassifyAll(acc, extract)
    requires requireMerge <==> AnySeriesMarker(acc)
    ensures |versions| == |acc| && forall k :: 0 <= k < |acc| ==> versions[k] == Classify(acc[k], extract)
    ensures requireMerge <==> exists k :: 0 <= k < |acc| && IsSeriesMarker(acc[k])
    ensures requireMerge ==> exists k :: 0 <= k < |versions| && RangeMerger.IsSeries(versions[k].introduced)
  {
    AnySeriesMarkerExists(acc);
    forall k | 0 <= k < |acc|
      ensures versions[k] == Classify(acc[k], extract)
    {
      ClassifyAllAt(acc, extract, k);
    }
    if requireMerge {
      MarkerYieldsSeries(acc, versions, extract);
    }
  }

  /** Where some entry is a series marker, some classified range has a series lower bound. */
  lemma MarkerYieldsSeries(acc: seq<MitreVersion>, versions: seq<Version>, extract: Extractor)
    requires |versions| == |acc|
    requires forall k :: 0 <= k < |acc| ==> versions[k] == Classify(acc[k], extract)
    requires exists k :: 0 <= k < |acc| && IsSeriesMarker(acc[k])
    ensures exists k :: 0 <= k < |versions| && RangeMerger.IsSeries(versions[k].introduced)
  {
    var k :| 0 <= k < |acc| && IsSeriesMarker(acc[k]);
    SeriesMarkerOpensSeries(acc[k], extract);
  }

  // ---------------------------------------------------------------------------
  // What a classified entry becomes downstream.

  /** A series marker's range has a one-dot lower bound: the merge scan opens a series on it. */
  lemma SeriesMarkerOpensSeries(c: MitreVersion, extract: Extractor)
    requires IsSeriesMarker(c)
    ensures RangeMerger.IsSeries(Classify(c, extract).introduced)
    ensures Classify(c, extract).fixed == "" && Classify(c, extract).lastAffected == ""
  {
  }

  /**
    An exclusive bound is where the emitted range is fixed: the entry's range
    becomes exactly the lower bound followed by a fixed event at that bound,
    so the extractor's upper end never reaches the output. A bound ending in
    ".0" makes the range start from "0".
   */
  lemma ExclusiveBoundIsFixedEvent(c: MitreVersion, extract: Extractor)
    requires Blank(c.lessThanOrEqual) && !Blank(c.lessThan)
    requires Classify(c, extract).introduced != ""
    ensures var r := Classify(c, extract);
      AffectedEvents.ToAffected(r).ranges[0].events ==
        [Introduced(AffectedEvents.Normalize(r.introduced)), Fixed(c.lessThan)]
    ensures HasSuffix(c.lessThan, ".0") ==>
      AffectedEvents.ToAffected(Classify(c, extract)).ranges[0].events[0] == Introduced("0")
  {
    var r := Classify(c, extract);
    var e := AffectedEvents.ToAffected(r).ranges[0].events;
    assert e == [e[0], e[1]];
  }

  /** An inclusive bound never yields a fixed event: its range ends at a last affected version. */
  lemma InclusiveBoundNeverFixed(c: MitreVersion, extract: Extractor)
    requires !Blank(c.lessThanOrEqual)
    requires Classify(c, extract).introduced != ""
    ensures AffectedEvents.ToAffected(Classify(c, extract)).ranges[0].events[1].LastAffected?
  {
  }

  /**
    A bare entry that is not a series marker yields a closed point range: its
    last event is the extractor's upper end, or the lower bound again when the
    extractor gives none.
   */
  lemma PointRangeEndsAtExtractedVersion(c: MitreVersion, extract: Extractor)
    requires Blank(c.lessThanOrEqual) && Blank(c.lessThan) && !IsSeriesMarker(c)
    requires Classify(c, extract).introduced != ""
    ensures var (from, to) := extract("", c.version, NoComparator);
      AffectedEvents.ToAffected(Classify(c, extract)).ranges[0].events[1] ==
        LastAffected(if to != "" then to else AffectedEvents.Normalize(from))
  {
  }
}
