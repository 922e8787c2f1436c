/**
  Turning normalised version ranges into OSV-style affected entries. Every
  range with a lower bound becomes one entry holding one SEMVER range of two
  events: the lower bound, then either the fixed version, the last affected
  version, or (when neither is known) the lower bound again as last affected.
 */
module AffectedEvents {
  import opened Optional
  import opened Vuln

  /** "0.0.0" as a lower bound means "from the beginning", written "0". */
  function Normalize(introduced: string): (r: string)
    ensures introduced != "0.0.0" ==> r == introduced
    ensures introduced == "0.0.0" ==> r == "0"
    ensures introduced != "" ==> r != ""
  {
    if introduced == "0.0.0" then "0" else introduced
  }

  /** The events of one range, appended in the order of the source's four tests. */
  function EventsOf(av: Version): seq<Event> {
    var introduced := Normalize(av.introduced);
    var e1 := if |introduced| > 0 then [Introduced(introduced)] else [];
    var e2 := if |av.fixed| > 0 then e1 + [Fixed(av.fixed)] else e1;
    var e3 := if |av.lastAffected| > 0 && |av.fixed| == 0 then e2 + [LastAffected(av.lastAffected)] else e2;
    if |introduced| > 0 && |av.lastAffected| == 0 && |av.fixed| == 0 then e3 + [LastAffected(introduced)] else e3
  }

  /** The affected entry one range with a lower bound becomes. */
  function ToAffected(av: Version): (r: Affected)
    requires av.introduced != ""
    ensures WellFormed(r)
    ensures r.ranges[0].events[0] == Introduced(Normalize(av.introduced))
    // "0.0.0" is written "0"; every other lower bound is emitted as it is
    ensures av.introduced == "0.0.0" ==> r.ranges[0].events[0] == Introduced("0")
    ensures av.introduced != "0.0.0" ==> r.ranges[0].events[0] == Introduced(av.introduced)
    ensures av.fixed != "" ==> r.ranges[0].events[1] == Fixed(av.fixed)
    ensures av.fixed == "" && av.lastAffected != "" ==> r.ranges[0].events[1] == LastAffected(av.lastAffected)
    ensures av.fixed == "" && av.lastAffected == "" ==>
      r.ranges[0].events[1] == LastAffected(Normalize(av.introduced))
  {
    Affected([Range(Semver, EventsOf(av))])
  }

  /**
    The shape every emitted entry has: one SEMVER range of exactly two
    events, a non-empty lower bound followed by a non-empty fixed or last
    affected version.
   */
  predicate WellFormed(a: Affected) {
    && |a.ranges| == 1
    && a.ranges[0].rangeType == Semver
    && |a.ranges[0].events| == 2
    && a.ranges[0].events[0].Introduced?
    && a.ranges[0].events[0].introduced != ""
    && match a.ranges[0].events[1]
       case Fixed(f) => f != ""
       case LastAffected(l) => l != ""
       case Introduced(_) => false
  }

  /** Reads an affected entry back as a range; None unless it has the emitted shape. */
  function Flatten(a: Affected): (r: Option<Version>)
    ensures r.Some? <==> WellFormed(a)
    ensures r.Some? ==> r.value.introduced != "" && (r.value.fixed == "" || r.value.lastAffected == "")
  {
    if !WellFormed(a) then None
    else
      var introduced := a.ranges[0].events[0].introduced;
      match a.ranges[0].events[1]
      case Fixed(f) => Some(Version(introduced, f, ""))
      case LastAffected(l) => Some(Version(introduced, "", l))
  }

  /**
    `GetAffectedEvents`: one entry per range that has a lower bound, in
    order; ranges without one are skipped.
   */
  function GetAffectedEvents(v: Vulnerability): (r: seq<Affected>)
    ensures |r| <= |v.affectedVersions|
    ensures forall k :: 0 <= k < |r| ==> WellFormed(r[k])
  {
    EventsOfAll(v.affectedVersions)
  }

  function EventsOfAll(vs: seq<Version>): (r: seq<Affected>)
    ensures |r| <= |vs|
    ensures forall k :: 0 <= k < |r| ==> WellFormed(r[k])
    decreases |vs|
  {
    if |vs| == 0 then []
    else
      var front := EventsOfAll(vs[..|vs| - 1]);
      var av := vs[|vs| - 1];
      if |av.introduced| == 0 then front else front + [ToAffected(av)]
  }

  /** The ranges that have a lower bound, in order. */
  function WithLowerBound(vs: seq<Version>): (r: seq<Version>)
    ensures |r| <= |vs|
    ensures forall k :: 0 <= k < |r| ==> r[k].introduced != ""
    decreases |vs|
  {
    if |vs| == 0 then []
    else
      var front := WithLowerBound(vs[..|vs| - 1]);
      if vs[|vs| - 1].introduced == "" then front else front + [vs[|vs| - 1]]
  }

  // ---------------------------------------------------------------------------
  // Properties.

  /** The emitted entries correspond one to one, in order, to the ranges with a lower bound. */
  lemma {:induction false} EventsFollowRanges(vs: seq<Version>)
    ensures |EventsOfAll(vs)| == |WithLowerBound(vs)|
    ensures forall k :: 0 <= k < |WithLowerBound(vs)| ==>
      EventsOfAll(vs)[k] == ToAffected(WithLowerBound(vs)[k])
    decreases |vs|
  {
    if |vs| > 0 {
      EventsFollowRanges(vs[..|vs| - 1]);
    }
  }

  /** Nothing is emitted exactly when no range has a lower bound. */
  lemma {:induction false} NoEventsIffNoLowerBound(v: Vulnerability)
    ensures |GetAffectedEvents(v)| == 0 <==>
      forall k :: 0 <= k < |v.affectedVersions| ==> v.affectedVersions[k].introduced == ""
  {
    var vs := v.affectedVersions;
    EventsFollowRanges(vs);
    LowerBoundEmpty(vs);
  }

  lemma {:induction false} LowerBoundEmpty(vs: seq<Version>)
    ensures |WithLowerBound(vs)| == 0 <==> forall k :: 0 <= k < |vs| ==> vs[k].introduced == ""
    decreases |vs|
  {
    if |vs| > 0 {
      var front := vs[..|vs| - 1];
      LowerBoundEmpty(front);
      if forall k :: 0 <= k < |vs| ==> vs[k].introduced == "" {
        forall k | 0 <= k < |front|
          ensures front[k].introduced == ""
        {
          assert front[k] == vs[k];
        }
      } else if |WithLowerBound(vs)| == 0 {
        var k :| 0 <= k < |vs| && vs[k].introduced != "";
        assert k < |front| ==> front[k] == vs[k];
      }
    }
  }

  /**
    Reading an emitted entry back recovers the range: the lower bound
    (normalised), the fixed version, and the last affected version unless a
    fixed version took precedence; with neither, the lower bound stands in
    as last affected.
   */
  lemma ToAffectedThenFlatten(av: Version)
    requires av.introduced != ""
    ensures Flatten(ToAffected(av)).Some?
    ensures var r := Flatten(ToAffected(av)).value;
      && r.introduced == Normalize(av.introduced)
      && r.fixed == av.fixed
      && (av.fixed == "" && av.lastAffected != "" ==> r.lastAffected == av.lastAffected)
      && (av.fixed == "" && av.lastAffected == "" ==> r.lastAffected == Normalize(av.introduced))
  {
  }

  /**
    Every entry of the emitted shape whose lower bound is not "0.0.0" is
    what its read-back range emits: the encoding is onto that shape.
   */
  lemma FlattenThenToAffected(a: Affected)
    requires WellFormed(a)
    requires a.ranges[0].events[0].introduced != "0.0.0"
    ensures ToAffected(Flatten(a).value) == a
  {
    var r := Flatten(a).value;
    var e := EventsOf(r);
    assert e == a.ranges[0].events;
    assert [a.ranges[0]] == a.ranges;
  }
}
