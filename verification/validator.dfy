/**
  The batch validator run over every assembled vulnerability record before
  the database is returned. Each record is inspected against eleven kinds
  of check (ten fixed ones and one lower-bound check per range), in a fixed
  order, and every failed check is recorded as one violation; the
  batch passes exactly when no violation was recorded (the Go function
  returns a nil error).

  The upstream-organisation lookup and the PEP 440 version parser are
  helpers that are not part of this model; both are parameters here.
 */
module Validator {
  import opened GoStrings
  import opened Vuln

  /** Upstream organisation prefix of a component name ("" when unknown). */
  type OrgLookup = string -> string

  /** Whether a version string is accepted by the PEP 440 parser. */
  type VersionParser = string -> bool

  /** Which check a record failed. */
  datatype Check =
    | MissingId
    | MissingCreatedAt
    | MissingSummary
    | MissingComponent
    | MissingDescription
    | MissingFixedVersion
    | InvalidIntroduced(introduced: string)
    | ZeroScore
    | MissingVector
    | MissingSeverity
    | MissingUrls

  /** One accumulated error: the record's id and the check it failed. */
  datatype Violation = Violation(cveId: string, check: Check)

  /** The component is nothing beyond its upstream organisation prefix. */
  predicate ComponentMissing(v: Vulnerability, orgOf: OrgLookup) {
    |TrimPrefix(v.component, orgOf(v.component))| == 0
  }

  /**
    The checks the validator runs on a record, in its order: six field
    checks, one lower-bound check per range (only when affected entries
    exist), then the four metric and link checks.
   */
  function Candidates(v: Vulnerability): (r: seq<Check>)
    ensures forall s :: InvalidIntroduced(s) in r <==>
      |v.affected| > 0 && exists k :: 0 <= k < |v.affectedVersions| && v.affectedVersions[k].introduced == s
  {
    var bounds := if |v.affected| > 0 then LowerBoundChecks(v.affectedVersions) else [];
    FieldCheckOrder + (bounds + MetricCheckOrder)
  }

  /** The six field checks, in the validator's order. */
  const FieldCheckOrder: seq<Check> :=
    [MissingId, MissingCreatedAt, MissingSummary, MissingComponent, MissingDescription, MissingFixedVersion]

  /** The four metric and link checks, in the validator's order. */
  const MetricCheckOrder: seq<Check> := [ZeroScore, MissingVector, MissingSeverity, MissingUrls]

  /** One lower-bound check per range, in order. */
  function LowerBoundChecks(vs: seq<Version>): (r: seq<Check>)
    ensures |r| == |vs|
    ensures forall k :: 0 <= k < |r| ==> r[k] == InvalidIntroduced(vs[k].introduced)
    decreases |vs|
  {
    if |vs| == 0 then [] else [InvalidIntroduced(vs[0].introduced)] + LowerBoundChecks(vs[1..])
  }

  /** Whether a record fails one check. */
  predicate Fails(v: Vulnerability, orgOf: OrgLookup, parses: VersionParser, c: Check) {
    match c
    case MissingId => |v.id| == 0
    case MissingCreatedAt => |v.createdAt| == 0
    case MissingSummary => |v.summary| == 0
    case MissingComponent => ComponentMissing(v, orgOf)
    case MissingDescription => |v.description| == 0
    case MissingFixedVersion => |v.affected| == 0
    case InvalidIntroduced(s) => !parses(s)
    case ZeroScore => v.cvssScoreIsZero
    case MissingVector => v.cvssVector == ""
    case MissingSeverity => v.severity == ""
    case MissingUrls => |v.urls| == 0
  }

  /** The checks of `cs` the record fails, in order. */
  function Failing(v: Vulnerability, orgOf: OrgLookup, parses: VersionParser, cs: seq<Check>): (r: seq<Check>)
    ensures |r| <= |cs|
    ensures forall c :: c in r <==> c in cs && Fails(v, orgOf, parses, c)
    decreases |cs|
  {
    if |cs| == 0 then []
    else
      var rest := Failing(v, orgOf, parses, cs[1..]);
      assert cs == [cs[0]] + cs[1..];
      if Fails(v, orgOf, parses, cs[0]) then [cs[0]] + rest else rest
  }

  /** The checks one record fails, in the order the validator runs them. */
  function CheckRecord(v: Vulnerability, orgOf: OrgLookup, parses: VersionParser): (r: seq<Check>)
    ensures |r| <= |Candidates(v)|
  {
    Failing(v, orgOf, parses, Candidates(v))
  }

  /** Each check is reported for a record exactly when the record fails it. */
  lemma CheckRecordReports(v: Vulnerability, orgOf: OrgLookup, parses: VersionParser)
    ensures var r := CheckRecord(v, orgOf, parses);
      && (MissingId in r <==> v.id == "")
      && (MissingCreatedAt in r <==> v.createdAt == "")
      && (MissingSummary in r <==> v.summary == "")
      && (MissingComponent in r <==> ComponentMissing(v, orgOf))
      && (MissingDescription in r <==> v.description == "")
      && (MissingFixedVersion in r <==> |v.affected| == 0)
      && (forall s :: InvalidIntroduced(s) in r <==>
            && |v.affected| > 0
            && exists k :: 0 <= k < |v.affectedVersions| && v.affectedVersions[k].introduced == s && !parses(s))
      && (ZeroScore in r <==> v.cvssScoreIsZero)
      && (MissingVector in r <==> v.cvssVector == "")
      && (MissingSeverity in r <==> v.severity == "")
      && (MissingUrls in r <==> |v.urls| == 0)
  {
    FieldChecksReported(v, orgOf, parses);
    BoundChecksReported(v, orgOf, parses);
    MetricChecksReported(v, orgOf, parses);
  }

  lemma FieldChecksReported(v: Vulnerability, orgOf: OrgLookup, parses: VersionParser)
    ensures var r := CheckRecord(v, orgOf, parses);
      && (MissingId in r <==> v.id == "")
      && (MissingCreatedAt in r <==> v.createdAt == "")
      && (MissingSummary in r <==> v.summary == "")
      && (MissingComponent in r <==> ComponentMissing(v, orgOf))
      && (MissingDescription in r <==> v.description == "")
      && (MissingFixedVersion in r <==> |v.affected| == 0)
  {
    RecordChecksReported(v, orgOf, parses);
    ContentChecksReported(v, orgOf, parses);
  }

  lemma RecordChecksReported(v: Vulnerability, orgOf: OrgLookup, parses: VersionParser)
    ensures var r := CheckRecord(v, orgOf, parses);
      && (MissingId in r <==> v.id == "")
      && (MissingCreatedAt in r <==> v.createdAt == "")
      && (MissingSummary in r <==> v.summary == "")
  {
    var cs := Candidates(v);
    assert cs[0] == MissingId && cs[1] == MissingCreatedAt && cs[2] == MissingSummary;
  }

  lemma ContentChecksReported(v: Vulnerability, orgOf: OrgLookup, parses: VersionParser)
    ensures var r := CheckRecord(v, orgOf, parses);
      && (MissingComponent in r <==> ComponentMissing(v, orgOf))
      && (MissingDescription in r <==> v.description == "")
      && (MissingFixedVersion in r <==> |v.affected| == 0)
  {
    var cs := Candidates(v);
    assert cs[3] == MissingComponent && cs[4] == MissingDescription && cs[5] == MissingFixedVersion;
  }

  lemma BoundChecksReported(v: Vulnerability, orgOf: OrgLookup, parses: VersionParser)
    ensures var r := CheckRecord(v, orgOf, parses);
      forall s :: InvalidIntroduced(s) in r <==>
        && |v.affected| > 0
        && exists k :: 0 <= k < |v.affectedVersions| && v.affectedVersions[k].introduced == s && !parses(s)
  {
    BoundChecksFiltered(v, orgOf, parses, Candidates(v));
  }

  /** A lower-bound check survives the filter exactly when its text does not parse. */
  lemma BoundChecksFiltered(v: Vulnerability, orgOf: OrgLookup, parses: VersionParser, cs: seq<Check>)
    ensures forall s :: InvalidIntroduced(s) in Failing(v, orgOf, parses, cs) <==> InvalidIntroduced(s) in cs && !parses(s)
  {
    forall s: string
      ensures InvalidIntroduced(s) in Failing(v, orgOf, parses, cs) <==> InvalidIntroduced(s) in cs && !parses(s)
    {
      assert Fails(v, orgOf, parses, InvalidIntroduced(s)) == !parses(s);
    }
  }

  lemma MetricChecksReported(v: Vulnerability, orgOf: OrgLookup, parses: VersionParser)
    ensures var r := CheckRecord(v, orgOf, parses);
      && (ZeroScore in r <==> v.cvssScoreIsZero)
      && (MissingVector in r <==> v.cvssVector == "")
      && (MissingSeverity in r <==> v.severity == "")
      && (MissingUrls in r <==> |v.urls| == 0)
  {
    var cs := Candidates(v);
    assert cs[|cs| - 4] == ZeroScore && cs[|cs| - 3] == MissingVector;
    assert cs[|cs| - 2] == MissingSeverity && cs[|cs| - 1] == MissingUrls;
  }

  /** A record that meets every requirement, stated field by field. */
  predicate Passes(v: Vulnerability, orgOf: OrgLookup, parses: VersionParser) {
    && v.id != ""
    && v.createdAt != ""
    && v.summary != ""
    && !ComponentMissing(v, orgOf)
    && v.description != ""
    && |v.affected| > 0
    && (forall k :: 0 <= k < |v.affectedVersions| ==> parses(v.affectedVersions[k].introduced))
    && !v.cvssScoreIsZero
    && v.cvssVector != ""
    && v.severity != ""
    && |v.urls| > 0
  }

  /** A record yields no violation exactly when it passes every requirement. */
  lemma CheckRecordEmptyIffPasses(v: Vulnerability, orgOf: OrgLookup, parses: VersionParser)
    ensures CheckRecord(v, orgOf, parses) == [] <==> Passes(v, orgOf, parses)
  {
    var r := CheckRecord(v, orgOf, parses);
    CheckRecordReports(v, orgOf, parses);
    if r == [] && |v.affected| > 0 {
      forall k | 0 <= k < |v.affectedVersions|
        ensures parses(v.affectedVersions[k].introduced)
      {
        var s := v.affectedVersions[k].introduced;
        assert InvalidIntroduced(s) !in r;
      }
    }
    if r != [] {
      var c := r[0];
      assert c in r;
      if c.InvalidIntroduced? {
        assert InvalidIntroduced(c.introduced) in r;
      }
    }
  }

  /** The violations of one record, each tagged with its id. */
  function Tag(v: Vulnerability, checks: seq<Check>): (r: seq<Violation>)
    ensures |r| == |checks|
    ensures forall k :: 0 <= k < |r| ==> r[k] == Violation(v.id, checks[k])
    decreases |checks|
  {
    if |checks| == 0 then [] else [Violation(v.id, checks[0])] + Tag(v, checks[1..])
  }

  /**
    `ValidateCveData`: the violations of every record, records in order.
    The result is empty exactly when no record fails any check.
   */
  function ValidateCveData(cves: seq<Vulnerability>, orgOf: OrgLookup, parses: VersionParser): seq<Violation>
    decreases |cves|
  {
    if |cves| == 0 then []
    else
      var v := cves[|cves| - 1];
      ValidateCveData(cves[..|cves| - 1], orgOf, parses) + Tag(v, CheckRecord(v, orgOf, parses))
  }

  /** A batch yields no violation (a nil error) exactly when every record passes every requirement. */
  lemma {:induction false} ValidatePassesIff(cves: seq<Vulnerability>, orgOf: OrgLookup, parses: VersionParser)
    ensures ValidateCveData(cves, orgOf, parses) == [] <==> forall k :: 0 <= k < |cves| ==> Passes(cves[k], orgOf, parses)
    decreases |cves|
  {
    if |cves| > 0 {
      var front := cves[..|cves| - 1];
      var v := cves[|cves| - 1];
      var checks := CheckRecord(v, orgOf, parses);
      ValidatePassesIff(front, orgOf, parses);
      CheckRecordEmptyIffPasses(v, orgOf, parses);
      var r := ValidateCveData(cves, orgOf, parses);
      assert r == ValidateCveData(front, orgOf, parses) + Tag(v, checks);
      assert r == [] <==> ValidateCveData(front, orgOf, parses) == [] && checks == [] by {
        assert |Tag(v, checks)| == |checks|;
      }
      AllSnoc(cves, front, (w: Vulnerability) => Passes(w, orgOf, parses));
    }
  }

  /** Every element satisfies `p` exactly when every element but the last does and the last does too. */
  lemma AllSnoc<T>(xs: seq<T>, front: seq<T>, p: T -> bool)
    requires |xs| > 0 && front == xs[..|xs| - 1]
    ensures (forall k :: 0 <= k < |xs| ==> p(xs[k]))
      <==> (forall k :: 0 <= k < |front| ==> p(front[k])) && p(xs[|xs| - 1])
  {
    assert forall k :: 0 <= k < |front| ==> front[k] == xs[k];
  }

  // ---------------------------------------------------------------------------
  // Properties.

  /** Validating a batch extended by one record appends that record's violations. */
  lemma ValidateAppend(cves: seq<Vulnerability>, v: Vulnerability, orgOf: OrgLookup, parses: VersionParser)
    ensures ValidateCveData(cves + [v], orgOf, parses)
      == ValidateCveData(cves, orgOf, parses) + Tag(v, CheckRecord(v, orgOf, parses))
  {
    assert (cves + [v])[..|cves|] == cves;
  }

  /** Every failed check of every record is reported, under that record's id. */
  lemma {:induction false} EveryFailureReported(cves: seq<Vulnerability>, orgOf: OrgLookup, parses: VersionParser, k: nat, c: Check)
    requires k < |cves|
    requires c in CheckRecord(cves[k], orgOf, parses)
    ensures Violation(cves[k].id, c) in ValidateCveData(cves, orgOf, parses)
    decreases |cves|
  {
    var front := cves[..|cves| - 1];
    var v := cves[|cves| - 1];
    var checks := CheckRecord(v, orgOf, parses);
    if k == |cves| - 1 {
      var j :| 0 <= j < |checks| && checks[j] == c;
      assert Tag(v, checks)[j] == Violation(v.id, c);
    } else {
      assert front[k] == cves[k];
      EveryFailureReported(front, orgOf, parses, k, c);
    }
  }

  /** Every reported violation names a record of the batch and a check that record failed. */
  lemma {:induction false} EveryViolationTraced(cves: seq<Vulnerability>, orgOf: OrgLookup, parses: VersionParser, x: Violation)
    requires x in ValidateCveData(cves, orgOf, parses)
    ensures exists k :: 0 <= k < |cves| && x.cveId == cves[k].id && x.check in CheckRecord(cves[k], orgOf, parses)
    decreases |cves|
  {
    var front := cves[..|cves| - 1];
    var v := cves[|cves| - 1];
    var checks := CheckRecord(v, orgOf, parses);
    if x in ValidateCveData(front, orgOf, parses) {
      EveryViolationTraced(front, orgOf, parses, x);
      var k :| 0 <= k < |front| && x.cveId == front[k].id && x.check in CheckRecord(front[k], orgOf, parses);
      assert front[k] == cves[k];
    } else {
      var tagged := Tag(v, checks);
      var j :| 0 <= j < |tagged| && tagged[j] == x;
      assert x.check == checks[j];
      assert x.cveId == cves[|cves| - 1].id;
    }
  }

  /**
    A record with no description and a zero score, otherwise complete, yields
    exactly two violations, in the validator's order.
   */
  lemma DescriptionAndScoreBothReported(v: Vulnerability, orgOf: OrgLookup, parses: VersionParser)
    requires v.id != "" && v.createdAt != "" && v.summary != "" && !ComponentMissing(v, orgOf)
    requires v.description == "" && |v.affected| > 0
    requires forall k :: 0 <= k < |v.affectedVersions| ==> parses(v.affectedVersions[k].introduced)
    requires v.cvssScoreIsZero && v.cvssVector != "" && v.severity != "" && |v.urls| > 0
    ensures ValidateCveData([v], orgOf, parses) == [Violation(v.id, MissingDescription), Violation(v.id, ZeroScore)]
  {
    var checks := CheckRecord(v, orgOf, parses);
    assert checks == [MissingDescription, ZeroScore] by {
      CheckRecordSplit(v, orgOf, parses);
      OnlyDescriptionFieldFails(v, orgOf, parses);
      NoBoundFails(v, orgOf, parses);
      OnlyScoreMetricFails(v, orgOf, parses);
      assert [MissingDescription] + ([] + [ZeroScore]) == [MissingDescription, ZeroScore];
    }
    ValidateAppend([], v, orgOf, parses);
    assert [] + [v] == [v];
    var tagged := Tag(v, checks);
    assert tagged == [Violation(v.id, MissingDescription), Violation(v.id, ZeroScore)];
  }

  /** With affected entries present, a record's report is the field, bound and metric reports in turn. */
  lemma CheckRecordSplit(v: Vulnerability, orgOf: OrgLookup, parses: VersionParser)
    requires |v.affected| > 0
    ensures CheckRecord(v, orgOf, parses) ==
      Failing(v, orgOf, parses, FieldCheckOrder)
      + (Failing(v, orgOf, parses, LowerBoundChecks(v.affectedVersions))
      + Failing(v, orgOf, parses, MetricCheckOrder))
  {
    var bounds := LowerBoundChecks(v.affectedVersions);
    FailingAppend(v, orgOf, parses, FieldCheckOrder, bounds + MetricCheckOrder);
    FailingAppend(v, orgOf, parses, bounds, MetricCheckOrder);
  }

  lemma OnlyDescriptionFieldFails(v: Vulnerability, orgOf: OrgLookup, parses: VersionParser)
    requires v.id != "" && v.createdAt != "" && v.summary != "" && !ComponentMissing(v, orgOf)
    requires v.description == "" && |v.affected| > 0
    ensures Failing(v, orgOf, parses, FieldCheckOrder) == [MissingDescription]
  {
    var before := [MissingId, MissingCreatedAt, MissingSummary, MissingComponent];
    var after := [MissingDescription, MissingFixedVersion];
    RecordFieldsPass(v, orgOf, parses);
    OnlyDescriptionFails(v, orgOf, parses);
    assert FieldCheckOrder == before + after;
    FailingAppend(v, orgOf, parses, before, after);
  }

  lemma RecordFieldsPass(v: Vulnerability, orgOf: OrgLookup, parses: VersionParser)
    requires v.id != "" && v.createdAt != "" && v.summary != "" && !ComponentMissing(v, orgOf)
    ensures Failing(v, orgOf, parses, [MissingId, MissingCreatedAt, MissingSummary, MissingComponent]) == []
  {
    NothingFailing(v, orgOf, parses, [MissingId, MissingCreatedAt, MissingSummary, MissingComponent]);
  }

  lemma OnlyDescriptionFails(v: Vulnerability, orgOf: OrgLookup, parses: VersionParser)
    requires v.description == "" && |v.affected| > 0
    ensures Failing(v, orgOf, parses, [MissingDescription, MissingFixedVersion]) == [MissingDescription]
  {
    assert [MissingDescription, MissingFixedVersion] == [MissingDescription] + [MissingFixedVersion];
    FailingAppend(v, orgOf, parses, [MissingDescription], [MissingFixedVersion]);
    FailingOne(v, orgOf, parses, MissingDescription);
    FailingOne(v, orgOf, parses, MissingFixedVersion);
  }

  lemma NoBoundFails(v: Vulnerability, orgOf: OrgLookup, parses: VersionParser)
    requires forall k :: 0 <= k < |v.affectedVersions| ==> parses(v.affectedVersions[k].introduced)
    ensures Failing(v, orgOf, parses, LowerBoundChecks(v.affectedVersions)) == []
  {
    var cs := LowerBoundChecks(v.affectedVersions);
    forall k | 0 <= k < |cs|
      ensures !Fails(v, orgOf, parses, cs[k])
    {
      assert cs[k] == InvalidIntroduced(v.affectedVersions[k].introduced);
    }
    NothingFailing(v, orgOf, parses, cs);
  }

  lemma {:induction false} NothingFailing(v: Vulnerability, orgOf: OrgLookup, parses: VersionParser, cs: seq<Check>)
    requires forall k :: 0 <= k < |cs| ==> !Fails(v, orgOf, parses, cs[k])
    ensures Failing(v, orgOf, parses, cs) == []
    decreases |cs|
  {
    if |cs| > 0 {
      NothingFailing(v, orgOf, parses, cs[1..]);
    }
  }

  lemma OnlyScoreMetricFails(v: Vulnerability, orgOf: OrgLookup, parses: VersionParser)
    requires v.cvssScoreIsZero && v.cvssVector != "" && v.severity != "" && |v.urls| > 0
    ensures Failing(v, orgOf, parses, MetricCheckOrder) == [ZeroScore]
  {
    var after := [MissingVector, MissingSeverity, MissingUrls];
    assert MetricCheckOrder == [ZeroScore] + after;
    assert Failing(v, orgOf, parses, after) == [] by {
      NothingFailing(v, orgOf, parses, after);
    }
    FailingOne(v, orgOf, parses, ZeroScore);
    FailingAppend(v, orgOf, parses, [ZeroScore], after);
  }

  /** A single check is reported exactly when the record fails it. */
  lemma FailingOne(v: Vulnerability, orgOf: OrgLookup, parses: VersionParser, c: Check)
    ensures Failing(v, orgOf, parses, [c]) == if Fails(v, orgOf, parses, c) then [c] else []
  {
    assert [c][1..] == [];
  }

  /** Filtering a concatenation filters the parts, in order. */
  lemma {:induction false} FailingAppend(v: Vulnerability, orgOf: OrgLookup, parses: VersionParser, a: seq<Check>, b: seq<Check>)
    ensures Failing(v, orgOf, parses, a + b) == Failing(v, orgOf, parses, a) + Failing(v, orgOf, parses, b)
    decreases |a|
  {
    if |a| == 0 {
      assert a + b == b;
    } else {
      assert (a + b)[0] == a[0];
      assert (a + b)[1..] == a[1..] + b;
      FailingAppend(v, orgOf, parses, a[1..], b);
    }
  }

  /** An empty batch passes. */
  lemma EmptyBatchPasses(orgOf: OrgLookup, parses: VersionParser)
    ensures ValidateCveData([], orgOf, parses) == []
  {
  }
}
