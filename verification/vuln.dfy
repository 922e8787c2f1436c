/**
  The records the collector passes between its stages: a normalised version
  range, the OSV-style events it becomes, and the assembled vulnerability that
  the batch validator inspects.
 */
module Vuln {

  /** The range type every emitted range carries. */
  const Semver: string := "SEMVER"

  /**
    A normalised affected-version range. An empty string means "not set":
    `introduced` is the lower bound ("0" meaning from the beginning), `fixed`
    the first unaffected version, `lastAffected` the highest affected one.
   */
  datatype Version = Version(introduced: string, fixed: string, lastAffected: string)

  /** One boundary of an OSV range; exactly one kind of bound per event. */
  datatype Event =
    | Introduced(introduced: string)
    | Fixed(fixed: string)
    | LastAffected(lastAffected: string)

  datatype Range = Range(rangeType: string, events: seq<Event>)

  datatype Affected = Affected(ranges: seq<Range>)

  /**
    An assembled vulnerability record as the validator sees it. The CVSS score
    is kept only as "is it zero", the one question the validator asks of it.
   */
  datatype Vulnerability = Vulnerability(
    id: string,
    createdAt: string,
    component: string,
    affectedVersions: seq<Version>,
    affected: seq<Affected>,
    summary: string,
    description: string,
    urls: seq<string>,
    cvssVector: string,
    cvssScoreIsZero: bool,
    severity: string)
}
