# k8s-db-collector: version-range normalisation, merge, events and validation

This project models in Dafny the core of the Kubernetes vulnerability
database collector. For each advisory, the collector takes the free-form
affected-version entries of the CVE-registry record and turns them into
canonical version ranges. It then emits OSV-style affected entries and
validates the assembled records. The modelled pieces are:

- **Sanitizer** (`sanitizedVersion`). Two rules reject an entry. Otherwise a
  cascade of textual rewrites runs over `(version, lessThanOrEqual, lessThan)`,
  each rewrite seeing what the earlier ones left behind. The rewrites handle
  the "<=" placeholder, "< X", "<= X", "prior to X", a "X*" bound, a ".x"
  version and a residual "<=".
- **Range builder** (the loop over affected entries in the registry parser).
  It keeps entries marked "affected" that the sanitiser does not reject. It
  classifies each one by its comparator into a `Version` (introduced, fixed,
  lastAffected). It raises the merge flag when a bare major.minor series
  marker appears.
- **Range merger** (`byVersion.Less`, `mergeVersionRange`). It sorts the
  ranges by lower bound, then scans them once as a state machine (`Step`,
  `Run`). A series marker opens a range at "<series>.0". The next patch-level
  entry closes that range as its last affected version. A series still open
  at the end is closed by a fixed version one minor release above the last
  lower bound.
- **Event builder** (`GetAffectedEvents`). Every range with a lower bound
  becomes one affected entry, holding one SEMVER range of two events.
- **Validator** (`ValidateCveData`). It runs eleven kinds of check per
  record, in the source's order: ten fixed ones and one lower-bound check
  per range. It accumulates one violation per failed check. An empty result
  stands for the nil error.

Modules:

- `Optional` is an option type.
- `GoStrings` holds Go's `strings` helpers on `seq<char>`.
- `Vuln` holds the shared records.
- `Dotted` is a dotted-numeric version parser and comparator that stands in
  for the go-version library.
- `Sanitizer`, `RangeBuilder`, `RangeMerger`, `AffectedEvents` and
  `Validator` are the five pieces above.

Helpers whose code is not part of this model are parameters:

- `utils.ExtractVersions` is `Extractor`.
- `utils.TrimString` is the `trim` function.
- `utils.UpstreamOrgByName` is `OrgLookup`.
- The PEP 440 `version.Parse` is `VersionParser`.

## Model

| member | source | states |
|---|---|---|
| Sanitizer.Sanitize | collectors/cvedb/cve/mitre.go:132-138 | an entry is rejected exactly when its version contains "n/a" and both bounds are empty, or when a bound is "unspecified" and the version is non-empty |
| Sanitizer.NumericEntryPassesThrough | collectors/cvedb/cve/mitre.go:132-175 | an entry whose three fields are digits-and-dots text is never rejected and passes every rewrite unchanged: the sanitiser returns its fields with only the prefix trim applied |
| Sanitizer.PlaceholderTakesVersion | collectors/cvedb/cve/mitre.go:139-141 | a bare "<=" inclusive bound is replaced by the version text, when the version holds no "<=" (otherwise the later "<= X" and residual rewrites change it further) |
| Sanitizer.LessThanTextFillsBound | collectors/cvedb/cve/mitre.go:142-144 | "< X" puts X into the exclusive bound, and the version field keeps the "< X" text |
| Sanitizer.LessEqualTextFillsBound | collectors/cvedb/cve/mitre.go:145-147 | "<= X" puts X into the inclusive bound, when X holds no further "<=" (otherwise the residual strip rewrites it) |
| Sanitizer.PriorToBecomesBound | collectors/cvedb/cve/mitre.go:148-155 | "prior to X" with numeric X makes X both the version and the exclusive bound; ".0" is appended exactly when X has one dot |
| Sanitizer.PriorToLessThanReadsVersion | collectors/cvedb/cve/mitre.go:156-158 | an exclusive bound "prior to Y" is replaced by the trimmed version text, not by Y |
| Sanitizer.WildcardBecomesVersion | collectors/cvedb/cve/mitre.go:159-165 | a bound "X*" is cleared and its star-free trimmed text becomes the version, cut at its last dot when it ends in ".x" |
| Sanitizer.SeriesSuffixIsCut | collectors/cvedb/cve/mitre.go:163-165 | a version ending in ".x" is cut just before its last dot and trimmed |
| Sanitizer.ResidualLessEqualIsStripped | collectors/cvedb/cve/mitre.go:166-168 | any other inclusive bound containing "<=" loses every "<=" and the surrounding space |
| GoStrings.TrimSpaceEmpty | collectors/cvedb/cve/mitre.go:87-89 | a string trims to nothing exactly when it is all white space, which is the builder's "blank comparator" test |
| RangeBuilder.ExclusiveBoundIsFixedEvent | collectors/cvedb/cve/mitre.go:89-94 | an entry with only an exclusive bound is emitted as exactly two events, its lower bound and then "fixed" at that bound, so the extractor's upper end never reaches the output; a bound ending in ".0" makes the emitted range start at "0" (with collector.go:93-111) |
| RangeBuilder.InclusiveBoundNeverFixed | collectors/cvedb/cve/mitre.go:87-88 | an entry with an inclusive bound never yields a fixed event; its emitted range ends at a last affected version (with collector.go:98-106) |
| RangeBuilder.PointRangeEndsAtExtractedVersion | collectors/cvedb/cve/mitre.go:99-101 | a bare entry that is not a series marker is emitted as a closed range ending at the extractor's upper end, or at its lower bound when the extractor gives none (with collector.go:101-106) |
| RangeBuilder.SeriesMarkerOpensSeries | collectors/cvedb/cve/mitre.go:96-98 | a series marker yields an open range whose lower bound is one the merge scan treats as a series (mitre.go:214) |
| RangeBuilder.BuildVersions | collectors/cvedb/cve/mitre.go:75-108 | one classified range per accepted entry, in encounter order; the merge flag is raised exactly when some accepted entry is a series marker, and when it is raised some range has a series lower bound for the merge to open |
| RangeBuilder.AcceptedKeepsAffected | collectors/cvedb/cve/mitre.go:79-85 | nothing is accepted exactly when every entry is not "affected" or is rejected; accepted entries carry no status |
| RangeBuilder.SanitizeRejectsAsRegistry | collectors/cvedb/cve/mitre.go:132-138 | the registry sanitiser rejects exactly the rejected entries and clears the status of the rest |
| Dotted.LessIsStrictOrder | collectors/cvedb/cve/mitre.go:196-206 | the sort comparator is irreflexive, asymmetric and transitive |
| Dotted.ParseFormat | collectors/cvedb/cve/mitre.go:236-237 | the "%d.%d.%d" text of a segment list parses back to that list |
| RangeMerger.SortByVersion | collectors/cvedb/cve/mitre.go:186-211 | the sort returns a permutation of its input with no neighbour pair out of order |
| RangeMerger.SortedIsFixed | collectors/cvedb/cve/mitre.go:196-211 | input already in order, entries that compare equal included, comes out of the sort unchanged |
| RangeMerger.TiedMarkerAfterPatch | collectors/cvedb/cve/mitre.go:208-240 | a patch entry "M.N.0" followed by a tying marker "M.N" keeps its place: the patch entry passes through, and the marker is closed at the end from its own text, at "M.(N+1).0" |
| RangeMerger.InsertSorted | collectors/cvedb/cve/mitre.go:196-211 | inserting the next entry into the sorted ones before it, moving it left only past entries it sorts strictly before, keeps them sorted |
| RangeMerger.SortedIsGloballyOrdered | collectors/cvedb/cve/mitre.go:196-211 | where all bounds parse, no entry of a sorted list sorts before an earlier one, so no lower bound exceeds that of the last entry |
| RangeMerger.ResolveAffected | collectors/cvedb/cve/mitre.go:109-112 | without the merge flag the ranges are passed on unchanged; with it, never more ranges come out than went in |
| RangeMerger.RunAppend | collectors/cvedb/cve/mitre.go:213-229 | scanning a concatenation is scanning the parts in turn |
| RangeMerger.MergeNeverGrows | collectors/cvedb/cve/mitre.go:208-242 | the merge emits at most as many ranges as it receives |
| RangeMerger.NoSeriesPassesThrough | collectors/cvedb/cve/mitre.go:213-229 | with no series marker among sorted ranges, the scan returns them unchanged |
| RangeMerger.MergeWithoutSeriesOnlySorts | collectors/cvedb/cve/mitre.go:208-242 | with no series marker, the merge returns a sorted permutation of its input |
| RangeMerger.SeriesTerminatedByPatchEntry | collectors/cvedb/cve/mitre.go:214-224 | a marker followed by a patch-level entry yields the range from "<series>.0" to that entry as last affected, then the entry itself, and the closing bound is kept pending |
| RangeMerger.OpenSeriesDropsEntry | collectors/cvedb/cve/mitre.go:225-228 | while a series is open and no close is pending, an entry that is not patch-level vanishes from the output |
| RangeMerger.SeriesThenNextPatchMerged | collectors/cvedb/cve/mitre.go:208-242 | "M.N" with "M.(N+1).P" merges into the range from "M.N.0" with last affected "M.(N+1).P", followed by the patch entry unchanged |
| RangeMerger.SecondSeriesSkipsFirstPatch | collectors/cvedb/cve/mitre.go:218-228 | after one series closes, the next series lets its first patch entry through and is closed by the following one |
| RangeMerger.SeriesCloseValue | collectors/cvedb/cve/mitre.go:231-240 | the end-of-scan fixed version is one minor release above the text of the last sorted lower bound ("M.N" to "M.(N+1).0", "M" to "M.1.0"); there is none when that text does not parse or has three or more segments |
| RangeMerger.OpenSeriesClosedAtEnd | collectors/cvedb/cve/mitre.go:231-240 | a series still open at the end, with no close pending, is closed after everything emitted, by the range from "<series>.0" to that fixed version |
| RangeMerger.LoneSeriesIsClosed | collectors/cvedb/cve/mitre.go:208-242 | a lone marker "M.N" becomes the single range from "M.N.0" fixed at "M.(N+1).0" |
| RangeMerger.UnparseableLastLosesSeries | collectors/cvedb/cve/mitre.go:208-240 | a marker followed by a last entry that neither parses nor is patch-level yields no range at all: the entry is dropped by the open series and the close finds no fixed version |
| AffectedEvents.ToAffected | collectors/cvedb/cve/collector.go:90-111 | one SEMVER range of two events: the lower bound (written "0" when it is "0.0.0", as is otherwise), then the fixed version, else the last affected version, else the lower bound again |
| AffectedEvents.GetAffectedEvents | collectors/cvedb/cve/collector.go:84-114 | every emitted entry has the two-event shape, and there are never more entries than ranges |
| AffectedEvents.EventsFollowRanges | collectors/cvedb/cve/collector.go:84-114 | the emitted entries correspond one to one, in order, to the ranges that have a lower bound |
| AffectedEvents.NoEventsIffNoLowerBound | collectors/cvedb/cve/collector.go:86-89 | nothing is emitted exactly when no range has a lower bound |
| AffectedEvents.ToAffectedThenFlatten | collectors/cvedb/cve/collector.go:93-111 | reading an emitted entry back recovers the normalised lower bound, the fixed version, and the last affected version when no fixed version took precedence |
| AffectedEvents.FlattenThenToAffected | collectors/cvedb/cve/collector.go:93-111 | every entry of the emitted shape whose lower bound is not "0.0.0" is what its read-back range emits |
| Validator.Candidates | collectors/cvedb/cve/collector.go:150-157 | a lower-bound check exists for a text exactly when affected entries exist and some range has that lower bound |
| Validator.CheckRecordReports | collectors/cvedb/cve/collector.go:132-169 | each of the eleven kinds of check (ten fixed, plus one lower-bound check per range when affected entries exist) is reported for a record exactly when the record fails it |
| Validator.CheckRecordEmptyIffPasses | collectors/cvedb/cve/collector.go:131-170 | a record yields no violation exactly when it meets every requirement |
| Validator.ValidatePassesIff | collectors/cvedb/cve/collector.go:129-172 | a batch yields no violation (nil error) exactly when every record meets every requirement |
| Validator.ValidateAppend | collectors/cvedb/cve/collector.go:131-170 | one more record appends exactly that record's violations |
| Validator.EveryFailureReported | collectors/cvedb/cve/collector.go:129-172 | every failed check of every record is reported under that record's id |
| Validator.EveryViolationTraced | collectors/cvedb/cve/collector.go:129-172 | every reported violation names a record of the batch and a check that record fails |
| Validator.DescriptionAndScoreBothReported | collectors/cvedb/cve/collector.go:144-160 | a record that lacks only a description and has a zero score yields exactly those two violations, in order |
| Validator.EmptyBatchPasses | collectors/cvedb/cve/collector.go:129-172 | an empty batch yields no violation |

### Behaviour of the code worth knowing

- After a series marker, the patch entry that closes the series is
  re-emitted unchanged (mitre.go:221); only the synthesised range gets it as
  last affected (`RangeMerger.SeriesThenNextPatchMerged`).
- The close of a series still open at the end is computed from the TEXT of
  the last sorted entry (mitre.go:232), not from the highest value seen.
  When every lower bound parses, the last entry has no lower bound above it
  (`RangeMerger.SortedIsGloballyOrdered`). A tie can still change the
  result, because "1.26" and "1.26.0" compare equal but only a text of one
  or two segments yields a close; "1.26.0" has three and yields none (`RangeMerger.SeriesCloseValue`,
  `RangeMerger.TiedMarkerAfterPatch`). When the last sorted entry does not
  parse, no close is found and the open series is lost: `["1.26", "abc"]`
  merges to nothing (`RangeMerger.UnparseableLastLosesSeries`).
- The pending bound (`lastVersion`) is cleared only by the next entry that
  passes through. While it is set, a new series is not closed by its first
  patch entry (`RangeMerger.SecondSeriesSkipsFirstPatch`).
- While a series is open and no close is pending, an entry that is not
  patch-level is dropped (`RangeMerger.OpenSeriesDropsEntry`).
- The "prior to" rule on the exclusive bound reads the version field
  (mitre.go:157), not the bound itself.
- "< X" fills the exclusive bound but leaves the "< X" text in the version
  field (mitre.go:142-144).

## Left out

- **Network, JSON and file input.** The HTTP fetch of registry records
  (mitre.go:60-71), the index-feed parsing and `Collect` are out of scope.
  They are I/O, and they produce the inputs modelled here.
- **`getMetrics`, `getDescription`, `getComponentName` and the "kubernetes"
  component rewrite** (mitre.go:113-117). These pick fields out of the
  record; they are not version logic. The CVSS score is kept only as "is
  zero".
- **Component selection** (mitre.go:76-78). The nested affected/versions
  loops are flattened into one list of entries.
- **`utils.ExtractVersions`, `utils.TrimString`, `utils.UpstreamOrgByName`
  and the PEP 440 parser.** Their code is not part of this model. They are
  parameters, so properties hold for every behaviour they could have.
- **The go-version library.** It is replaced by a dotted-numeric parser with
  zero-padded segment comparison. A "v" prefix, pre-release and metadata
  suffixes, and 64-bit segment overflow are not modelled.
- **`sort.Sort` on long lists.** The model is the insertion sort that
  `sort.Sort` runs on up to 12 entries (Go 1.19 and later; up to 6 in
  earlier releases). On longer lists Go switches to a quicksort that may
  arrange entries that compare equal differently.
- **Error text.** The accumulated multierror text, including the duplicated
  "Vector is mssing" message for a zero score, is replaced by
  (id, check) violations.
- **In-place mutation.** The Go code mutates the entry and the ranges in
  place. The model returns new values.
- **Lower-bound checks in practice.** The record assembled for validation
  (collector.go:63-73) never sets `AffectedVersions`, so in practice the
  per-range lower-bound checks (collector.go:150-157) see an empty list. The
  model keeps the check as written.
