/**
  The merge pass of the CVE-registry parser. When an advisory lists a bare
  major.minor series ("1.26") among its affected versions, the ranges are
  sorted by their lower bound and scanned once: a series marker opens a range
  at "<series>.0" that the next patch-level entry closes as its last affected
  version; a series still open at the end is closed by a synthesised fixed
  version one minor release up.

  The scan is written as a state machine (`Step`) folded over the sorted
  ranges (`Run`); the properties below are stated about that fold.
 */
module RangeMerger {
  import opened Optional
  import opened GoStrings
  import opened Dotted
  import opened Vuln

  // ---------------------------------------------------------------------------
  // Sorting by lower bound.

  /** The sort comparator: `a` sorts before `b` when its lower bound is strictly lower. */
  predicate ByVersionLess(a: Version, b: Version) {
    Less(a.introduced, b.introduced)
  }

  /** No neighbour pair is out of order under the comparator (stated pair by pair from the back). */
  predicate SortedByVersion(s: seq<Version>)
    decreases |s|
  {
    |s| < 2 || (!ByVersionLess(s[|s| - 1], s[|s| - 2]) && SortedByVersion(s[..|s| - 1]))
  }

  /**
    One pass of the insertion sort: `x`, placed after the sorted `s`, is
    swapped leftwards for as long as it sorts strictly before its left
    neighbour, so it ends up after every entry it does not sort before.
   */
  function Insert(x: Version, s: seq<Version>): (r: seq<Version>)
    ensures |r| == |s| + 1
    ensures multiset(r) == multiset(s) + multiset{x}
    decreases |s|
  {
    if |s| == 0 then [x]
    else if ByVersionLess(x, s[|s| - 1]) then
      assert s == s[..|s| - 1] + [s[|s| - 1]];
      Insert(x, s[..|s| - 1]) + [s[|s| - 1]]
    else s + [x]
  }

  /** Inserting into a sorted list keeps it sorted; the new last entry is `x` or the old last entry. */
  lemma {:induction false} InsertSorted(x: Version, s: seq<Version>)
    requires SortedByVersion(s)
    ensures SortedByVersion(Insert(x, s))
    ensures var r := Insert(x, s); r[|r| - 1] == x || (|s| > 0 && r[|r| - 1] == s[|s| - 1])
    decreases |s|
  {
    if |s| > 0 {
      var last := s[|s| - 1];
      var front := s[..|s| - 1];
      if ByVersionLess(x, last) {
        InsertSorted(x, front);
        var t := Insert(x, front);
        assert (t + [last])[..|t|] == t;
        assert !ByVersionLess(last, t[|t| - 1]) by {
          if t[|t| - 1] == x {
            LessIsStrictOrder(x.introduced, last.introduced, x.introduced);
          } else {
            assert t[|t| - 1] == s[|s| - 2];
          }
        }
      } else {
        assert (s + [x])[..|s|] == s;
      }
    }
  }

  /**
    The model of `sort.Sort(byVersion(...))`: Go's insertion sort, which
    inserts each entry in turn into the sorted entries before it. An entry
    never moves past one it does not sort strictly before, so entries that
    compare equal keep their input order.
   */
  function SortByVersion(s: seq<Version>): (r: seq<Version>)
    ensures |r| == |s|
    ensures multiset(r) == multiset(s)
    ensures SortedByVersion(r)
    decreases |s|
  {
    if |s| == 0 then []
    else
      assert s == s[..|s| - 1] + [s[|s| - 1]];
      var rest := SortByVersion(s[..|s| - 1]);
      InsertSorted(s[|s| - 1], rest);
      Insert(s[|s| - 1], rest)
  }

  /** Input already in order, ties included, comes out of the sort unchanged. */
  lemma {:induction false} SortedIsFixed(s: seq<Version>)
    requires SortedByVersion(s)
    ensures SortByVersion(s) == s
    decreases |s|
  {
    if |s| > 0 {
      var front := s[..|s| - 1];
      SortedIsFixed(front);
      assert front + [s[|s| - 1]] == s;
      if |front| > 0 {
        assert !ByVersionLess(s[|s| - 1], front[|front| - 1]);
      }
    }
  }

  /** A sorted list has every neighbour pair in order. */
  lemma {:induction false} SortedNeighbours(s: seq<Version>, k: nat)
    requires SortedByVersion(s)
    requires k + 1 < |s|
    ensures !ByVersionLess(s[k + 1], s[k])
    decreases |s|
  {
    if k + 2 < |s| {
      var front := s[..|s| - 1];
      SortedNeighbours(front, k);
      assert front[k] == s[k] && front[k + 1] == s[k + 1];
    }
  }

  /**
    Where every lower bound parses, neighbour order is global order: no entry
    sorts strictly before an earlier one. In particular no lower bound exceeds
    the last entry's, whose text the end-of-scan close reads.
   */
  lemma {:induction false} SortedIsGloballyOrdered(s: seq<Version>, i: nat, j: nat)
    requires SortedByVersion(s)
    requires forall k :: 0 <= k < |s| ==> Parses(s[k].introduced)
    requires i <= j < |s|
    ensures !ByVersionLess(s[j], s[i])
    decreases j - i
  {
    if i == j {
      NotBeforeSelf(s[i]);
    } else {
      SortedIsGloballyOrdered(s, i + 1, j);
      SortedNeighbours(s, i);
      NotBeforeChains(s[i], s[i + 1], s[j]);
    }
  }

  /** No range sorts before itself. */
  lemma NotBeforeSelf(x: Version)
    ensures !ByVersionLess(x, x)
  {
    LessIsStrictOrder(x.introduced, x.introduced, x.introduced);
  }

  /** On ranges whose lower bounds parse, "not sorted before" chains. */
  lemma NotBeforeChains(x: Version, y: Version, z: Version)
    requires Parses(x.introduced) && Parses(y.introduced) && Parses(z.introduced)
    requires !ByVersionLess(y, x) && !ByVersionLess(z, y)
    ensures !ByVersionLess(z, x)
  {
    NotLessTransitive(x.introduced, y.introduced, z.introduced);
  }

  // ---------------------------------------------------------------------------
  // The scan.

  /** A bare major.minor lower bound: exactly one dot. */
  predicate IsSeries(introduced: string) {
    CountChar(introduced, '.') == 1
  }

  /** A patch-level lower bound: more than one dot. */
  predicate IsPatch(introduced: string) {
    CountChar(introduced, '.') > 1
  }

  /**
    The scan's state: the open series (`start`, "" when none), the lower bound
    that closed the previous series (`last`, "" when none), and the output so far.
   */
  datatype ScanState = ScanState(start: string, last: string, out: seq<Version>)

  const Initial := ScanState("", "", [])

  /** One iteration of the scan loop over a range `av`. */
  function Step(st: ScanState, av: Version): ScanState {
    if st.start == "" && IsSeries(av.introduced) then
      // a series marker opens a range; the marker itself is not emitted
      st.(start := av.introduced)
    else if IsPatch(av.introduced) && st.last == "" && st.start != "" then
      // the first patch-level entry closes the open series
      ScanState("", av.introduced,
        st.out + [Version(st.start + ".0", "", av.introduced), Version(av.introduced, av.fixed, av.lastAffected)])
    else if st.last != "" || st.start == "" then
      ScanState(st.start, "", st.out + [av])
    else
      // a series is open and `av` cannot close it: `av` is dropped
      st
  }

  /** Runs the scan loop over `s` from state `st`. */
  function Run(st: ScanState, s: seq<Version>): (r: ScanState)
    ensures st.out <= r.out
    decreases |s|
  {
    if |s| == 0 then st else Run(Step(st, s[0]), s[1..])
  }

  /**
    The fixed version that closes a series still open at the end: the last
    sorted lower bound `lastBound` with ".0" appended, read as major.minor.patch, one minor
    release up. None when that text does not parse or has more than three
    segments.
   */
  function SeriesClose(lastBound: string): (r: Option<string>)
    ensures r.Some? ==> Parses(r.value)
  {
    match ParseDotted(lastBound + ".0")
    case None => None
    case Some(segs) => MinorAbove(segs)
  }

  /** One minor release above the given segments read as major.minor.patch; None past three segments. */
  function MinorAbove(segs: seq<nat>): (r: Option<string>)
    ensures r.Some? ==> Parses(r.value)
  {
    if |segs| > 3 then None
    else
      var p := PadTo3(segs);
      var f := [p[0], p[1] + 1, p[2]];
      ParseFormat(f);
      Some(Format(f))
  }

  /** Pads a segment list with zeros to three segments, as the version parser does. */
  function PadTo3(segs: seq<nat>): (p: seq<nat>)
    requires |segs| <= 3
    ensures |p| == 3 && p[..|segs|] == segs
    ensures forall k :: |segs| <= k < 3 ==> p[k] == 0
    decreases 3 - |segs|
  {
    if |segs| == 3 then segs else PadTo3(segs + [0])
  }

  /** The scan over already sorted ranges, followed by the end-of-scan close. */
  function MergeSorted(sorted: seq<Version>): seq<Version> {
    var st := Run(Initial, sorted);
    if |sorted| > 0 then Finish(st, sorted[|sorted| - 1].introduced) else st.out
  }

  /**
    The end-of-scan close: with a series still open and no close pending, the
    range from "<series>.0" to the fixed version above the last sorted lower
    bound is appended, when that fixed version exists.
   */
  function Finish(st: ScanState, lastBound: string): seq<Version> {
    if st.last == "" && IsSeries(st.start) then
      match SeriesClose(lastBound)
      case Some(fixed) => st.out + [Version(st.start + ".0", fixed, "")]
      case None => st.out
    else st.out
  }

  /** `mergeVersionRange`: sort by lower bound, then scan. */
  function MergeVersionRange(affected: seq<Version>): seq<Version> {
    MergeSorted(SortByVersion(affected))
  }

  /** The builder's last step: merge only when some entry asked for it. */
  function ResolveAffected(versions: seq<Version>, requireMerge: bool): (r: seq<Version>)
    ensures !requireMerge ==> r == versions
    ensures requireMerge ==> |r| <= |versions|
  {
    MergeNeverGrows(SortByVersion(versions));
    if requireMerge then MergeVersionRange(versions) else versions
  }

  // ---------------------------------------------------------------------------
  // Properties of the scan.

  /** Scanning a concatenation is scanning the parts one after the other. */
  lemma {:induction false} RunAppend(st: ScanState, a: seq<Version>, b: seq<Version>)
    ensures Run(st, a + b) == Run(Run(st, a), b)
    decreases |a|
  {
    if |a| > 0 {
      assert (a + b)[0] == a[0];
      assert (a + b)[1..] == a[1..] + b;
      RunAppend(Step(st, a[0]), a[1..], b);
    } else {
      assert a + b == b;
    }
  }

  /**
    What the scan keeps true: an open series is a single-dot bound, and the
    output plus the pending marker never outnumber the entries consumed.
   */
  predicate Reachable(st: ScanState, consumed: nat) {
    && (st.start == "" || IsSeries(st.start))
    && |st.out| + (if st.start == "" then 0 else 1) <= consumed
  }

  lemma {:induction false} RunReachable(st: ScanState, consumed: nat, s: seq<Version>)
    requires Reachable(st, consumed)
    ensures Reachable(Run(st, s), consumed + |s|)
    ensures Run(st, s).start != "" ==> st.start != "" || |s| > 0
    decreases |s|
  {
    if |s| > 0 {
      RunReachable(Step(st, s[0]), consumed + 1, s[1..]);
    }
  }

  /** The merge never produces more ranges than it was given. */
  lemma MergeNeverGrows(sorted: seq<Version>)
    ensures |MergeSorted(sorted)| <= |sorted|
  {
    RunReachable(Initial, 0, sorted);
  }

  /** Without a series marker the scan copies its input unchanged. */
  lemma {:induction false} NoSeriesRunCopies(out: seq<Version>, s: seq<Version>)
    requires forall k :: 0 <= k < |s| ==> !IsSeries(s[k].introduced)
    ensures Run(ScanState("", "", out), s) == ScanState("", "", out + s)
    decreases |s|
  {
    if |s| > 0 {
      NoSeriesRunCopies(out + [s[0]], s[1..]);
      assert out + [s[0]] + s[1..] == out + s;
    } else {
      assert out + s == out;
    }
  }

  /** With no major.minor series among the lower bounds, merging changes nothing. */
  lemma NoSeriesPassesThrough(sorted: seq<Version>)
    requires forall k :: 0 <= k < |sorted| ==> !IsSeries(sorted[k].introduced)
    ensures MergeSorted(sorted) == sorted
  {
    NoSeriesRunCopies([], sorted);
    assert [] + sorted == sorted;
  }

  /** With no series among the lower bounds, the merge only sorts: a sorted permutation of its input. */
  lemma MergeWithoutSeriesOnlySorts(affected: seq<Version>)
    requires forall k :: 0 <= k < |affected| ==> !IsSeries(affected[k].introduced)
    ensures multiset(MergeVersionRange(affected)) == multiset(affected)
    ensures SortedByVersion(MergeVersionRange(affected))
  {
    var sorted := SortByVersion(affected);
    forall k | 0 <= k < |sorted|
      ensures !IsSeries(sorted[k].introduced)
    {
      assert sorted[k] in multiset(affected);
      var j :| 0 <= j < |affected| && affected[j] == sorted[k];
    }
    NoSeriesPassesThrough(sorted);
  }

  /**
    A series marker followed by a patch-level entry: the pair becomes the range
    from "<series>.0" to that entry (as last affected) followed by the entry
    itself, and the closing bound is remembered.
   */
  lemma SeriesTerminatedByPatchEntry(out: seq<Version>, marker: Version, patch: Version)
    requires IsSeries(marker.introduced) && IsPatch(patch.introduced)
    ensures Run(ScanState("", "", out), [marker, patch]) ==
      ScanState("", patch.introduced, out + [Version(marker.introduced + ".0", "", patch.introduced), patch])
  {
    var st0 := ScanState("", "", out);
    var st1 := Step(st0, marker);
    assert st1 == ScanState(marker.introduced, "", out);
    var st2 := Step(st1, patch);
    assert [marker, patch][1..] == [patch];
    assert [patch][1..] == [];
    assert Run(st0, [marker, patch]) == Run(st1, [patch]) == Run(st2, []);
  }

  /**
    While a series is open and no close is pending, an entry with at most one
    dot (another marker, or a bare major version) vanishes from the output.
   */
  lemma OpenSeriesDropsEntry(st: ScanState, av: Version)
    requires st.start != "" && st.last == ""
    requires !IsPatch(av.introduced)
    ensures Step(st, av) == st
  {
  }

  /**
    A series "M.N" followed by a patch release "M.(N+1).P" of the next
    series: sorting keeps the order, and the merge emits the range from
    "M.N.0" with the patch release as last affected, then the patch entry
    unchanged. No range is synthesised at the end, since the series was closed.
   */
  lemma SeriesThenNextPatchMerged(marker: Version, patch: Version, major: nat, minor: nat, micro: nat)
    requires IsSeries(marker.introduced) && ParseDotted(marker.introduced) == Some([major, minor])
    requires IsPatch(patch.introduced) && ParseDotted(patch.introduced) == Some([major, minor + 1, micro])
    ensures MergeVersionRange([marker, patch]) == [Version(marker.introduced + ".0", "", patch.introduced), patch]
  {
    assert !ByVersionLess(patch, marker) by {
      SeriesBeforeNextMinor(major, minor, micro);
      LessIsStrictOrder(marker.introduced, patch.introduced, marker.introduced);
    }
    SortPairInOrder(marker, patch);
    SeriesTerminatedByPatchEntry([], marker, patch);
    assert [] + [Version(marker.introduced + ".0", "", patch.introduced), patch]
      == [Version(marker.introduced + ".0", "", patch.introduced), patch];
  }

  /** "M.N" compares below "M.(N+1).P". */
  lemma SeriesBeforeNextMinor(major: nat, minor: nat, micro: nat)
    ensures Compare([major, minor], [major, minor + 1, micro]) < 0
  {
    assert [major, minor][1..] == [minor];
    assert [major, minor + 1, micro][1..] == [minor + 1, micro];
  }

  /** "M.N" and "M.N.0" compare equal: a missing segment counts as zero. */
  lemma SeriesTiesItsZeroPatch(major: nat, minor: nat)
    ensures Compare([major, minor], [major, minor, 0]) == 0
  {
    var e: seq<nat> := [];
    assert Compare(e, [0]) == Compare(e, e) == 0 by {
      assert [0][1..] == e;
    }
    assert Compare([minor], [minor, 0]) == Compare(e, [0]) by {
      assert [minor][1..] == e;
      assert [minor, 0][1..] == [0];
    }
    assert Compare([major, minor], [major, minor, 0]) == Compare([minor], [minor, 0]) by {
      assert [major, minor][1..] == [minor];
      assert [major, minor, 0][1..] == [minor, 0];
    }
  }

  /**
    A patch entry "M.N.0" followed by a marker "M.N" that ties with it: the
    sort keeps the input order, the patch entry passes through the scan, and
    the marker then opens a series that the end of the scan closes, from the
    marker's own text, at "M.(N+1).0".
   */
  lemma TiedMarkerAfterPatch(patch: Version, marker: Version, major: nat, minor: nat)
    requires IsPatch(patch.introduced) && ParseDotted(patch.introduced) == Some([major, minor, 0])
    requires IsSeries(marker.introduced) && ParseDotted(marker.introduced) == Some([major, minor])
    ensures MergeVersionRange([patch, marker]) ==
      [patch, Version(marker.introduced + ".0", Format([major, minor + 1, 0]), "")]
  {
    assert !ByVersionLess(marker, patch) by {
      SeriesTiesItsZeroPatch(major, minor);
      CompareAntisymmetric([major, minor], [major, minor, 0]);
    }
    SortPairInOrder(patch, marker);
    var st := ScanState(marker.introduced, "", [patch]);
    PatchThenMarkerScan(patch, marker);
    assert [patch, marker][1] == marker;
    FinishCloses(st, marker.introduced, major, minor);
  }

  /** A patch entry passes through an idle scan; a marker after it opens a series. */
  lemma PatchThenMarkerScan(patch: Version, marker: Version)
    requires IsPatch(patch.introduced) && IsSeries(marker.introduced)
    ensures Run(Initial, [patch, marker]) == ScanState(marker.introduced, "", [patch])
  {
    var s := [patch, marker];
    var st1 := ScanState("", "", [patch]);
    assert Step(Initial, patch) == st1 by {
      assert !IsSeries(patch.introduced);
      assert [] + [patch] == [patch];
    }
    assert Run(Initial, s) == Run(st1, [marker]) by {
      assert s[0] == patch && s[1..] == [marker];
    }
    assert Step(st1, marker) == ScanState(marker.introduced, "", [patch]);
    assert Run(st1, [marker]) == Run(Step(st1, marker), []) by {
      assert [marker][0] == marker && [marker][1..] == [];
    }
  }

  /** Two ranges of which the second does not sort before the first are left in place by the sort. */
  lemma SortPairInOrder(a: Version, b: Version)
    requires !ByVersionLess(b, a)
    ensures SortByVersion([a, b]) == [a, b]
  {
    assert [a, b][..1] == [a];
    SortedIsFixed([a, b]);
  }

  /**
    After one series has been closed, the next series is not closed by its
    first patch-level entry: that entry passes through and clears the pending
    bound, and only the patch entry after it closes the second series.
   */
  lemma SecondSeriesSkipsFirstPatch(m1: Version, p1: Version, m2: Version, p2: Version, p3: Version)
    requires IsSeries(m1.introduced) && IsSeries(m2.introduced)
    requires IsPatch(p1.introduced) && IsPatch(p2.introduced) && IsPatch(p3.introduced)
    ensures Run(Initial, [m1, p1, m2, p2, p3]).out ==
      [ Version(m1.introduced + ".0", "", p1.introduced), p1,
        p2,
        Version(m2.introduced + ".0", "", p3.introduced), p3 ]
  {
    var close1 := [Version(m1.introduced + ".0", "", p1.introduced), p1];
    var st2 := ScanState("", p1.introduced, close1);
    assert Run(Initial, [m1, p1]) == st2 by {
      SeriesTerminatedByPatchEntry([], m1, p1);
      assert [] + close1 == close1;
    }
    var st4 := ScanState(m2.introduced, "", close1 + [p2]);
    assert Run(st2, [m2, p2]) == st4 by {
      PendingCloseLetsPatchThrough(close1, p1.introduced, m2, p2);
    }
    assert Run(st4, [p3]).out == close1 + [p2] + [Version(m2.introduced + ".0", "", p3.introduced), p3] by {
      OpenSeriesClosedByPatch(m2.introduced, close1 + [p2], p3);
    }
    assert Run(Initial, [m1, p1, m2, p2, p3]) == Run(Run(Run(Initial, [m1, p1]), [m2, p2]), [p3]) by {
      assert [m1, p1, m2, p2, p3] == [m1, p1] + ([m2, p2] + [p3]);
      RunAppend(Initial, [m1, p1], [m2, p2] + [p3]);
      RunAppend(Run(Initial, [m1, p1]), [m2, p2], [p3]);
    }
  }

  /**
    With a close pending, a new series marker is captured but the next
    patch-level entry passes through unchanged and clears the pending close.
   */
  lemma PendingCloseLetsPatchThrough(out: seq<Version>, last: string, marker: Version, patch: Version)
    requires last != "" && IsSeries(marker.introduced) && IsPatch(patch.introduced)
    ensures Run(ScanState("", last, out), [marker, patch]) == ScanState(marker.introduced, "", out + [patch])
  {
    var st0 := ScanState("", last, out);
    var st1 := Step(st0, marker);
    assert st1 == ScanState(marker.introduced, last, out);
    var st2 := Step(st1, patch);
    assert st2 == ScanState(marker.introduced, "", out + [patch]);
    assert [marker, patch][1..] == [patch];
    assert [patch][1..] == [];
    assert Run(st0, [marker, patch]) == Run(st1, [patch]) == Run(st2, []);
  }

  /** An open series with no close pending is closed by a patch-level entry. */
  lemma OpenSeriesClosedByPatch(start: string, out: seq<Version>, patch: Version)
    requires start != "" && IsPatch(patch.introduced)
    ensures Run(ScanState(start, "", out), [patch]).out ==
      out + [Version(start + ".0", "", patch.introduced), patch]
  {
    assert [patch][1..] == [];
  }

  /**
    A series still open when the input ends is closed one minor release above
    the last sorted lower bound, read as text: "1.26" closes at "1.27.0", a
    bare "2" at "2.1.0". A last bound of three or more segments, or one that
    does not parse, gives no close.
   */
  lemma SeriesCloseValue(lastBound: string)
    ensures Parses(lastBound) && |ParseDotted(lastBound).value| == 2 ==>
      var p := ParseDotted(lastBound).value;
      SeriesClose(lastBound) == Some(Format([p[0], p[1] + 1, 0]))
    ensures Parses(lastBound) && |ParseDotted(lastBound).value| == 1 ==>
      SeriesClose(lastBound) == Some(Format([ParseDotted(lastBound).value[0], 1, 0]))
    ensures !Parses(lastBound) || |ParseDotted(lastBound).value| >= 3 ==> SeriesClose(lastBound).None?
  {
    if !Parses(lastBound) {
      NoParseAppendZero(lastBound);
    } else if |ParseDotted(lastBound).value| == 1 {
      SeriesCloseOfOne(lastBound, ParseDotted(lastBound).value);
    } else if |ParseDotted(lastBound).value| == 2 {
      var p := ParseDotted(lastBound).value;
      assert p == [p[0], p[1]];
      SeriesCloseOfTwo(lastBound, p[0], p[1]);
    } else {
      ParseAppendZero(lastBound);
    }
  }

  lemma SeriesCloseOfOne(lastBound: string, p: seq<nat>)
    requires ParseDotted(lastBound) == Some(p) && |p| == 1
    ensures SeriesClose(lastBound) == Some(Format([p[0], 1, 0]))
  {
    assert ParseDotted(lastBound + ".0") == Some([p[0], 0]) by {
      ParseAppendZero(lastBound);
      assert p + [0] == [p[0], 0];
    }
    MinorAboveOfTwo(p[0], 0);
  }

  lemma SeriesCloseOfTwo(lastBound: string, major: nat, minor: nat)
    requires ParseDotted(lastBound) == Some([major, minor])
    ensures SeriesClose(lastBound) == Some(Format([major, minor + 1, 0]))
  {
    assert ParseDotted(lastBound + ".0") == Some([major, minor, 0]) by {
      ParseAppendZero(lastBound);
      assert [major, minor] + [0] == [major, minor, 0];
    }
    MinorAboveOfThree(major, minor, 0);
  }

  lemma MinorAboveOfTwo(major: nat, minor: nat)
    ensures MinorAbove([major, minor]) == Some(Format([major, minor + 1, 0]))
  {
    var q := PadTo3([major, minor]);
    assert q[0] == major && q[1] == minor && q[2] == 0 by {
      assert q[..2] == [major, minor];
      assert q[..2][0] == q[0] && q[..2][1] == q[1];
    }
    assert [q[0], q[1] + 1, q[2]] == [major, minor + 1, 0];
  }

  lemma MinorAboveOfThree(major: nat, minor: nat, patch: nat)
    ensures MinorAbove([major, minor, patch]) == Some(Format([major, minor + 1, patch]))
  {
  }

  /**
    A series still open when the scan ends, with no close pending, is closed
    after everything the scan emitted: the range from "<series>.0" to the
    fixed version one minor release above the last lower bound "M.N".
   */
  lemma OpenSeriesClosedAtEnd(sorted: seq<Version>, major: nat, minor: nat)
    requires |sorted| > 0
    requires Run(Initial, sorted).start != "" && Run(Initial, sorted).last == ""
    requires ParseDotted(sorted[|sorted| - 1].introduced) == Some([major, minor])
    ensures var st := Run(Initial, sorted);
      MergeSorted(sorted) == st.out + [Version(st.start + ".0", Format([major, minor + 1, 0]), "")]
  {
    var st := Run(Initial, sorted);
    assert IsSeries(st.start) by {
      RunReachable(Initial, 0, sorted);
    }
    FinishCloses(st, sorted[|sorted| - 1].introduced, major, minor);
  }

  lemma FinishCloses(st: ScanState, lastBound: string, major: nat, minor: nat)
    requires IsSeries(st.start) && st.last == ""
    requires ParseDotted(lastBound) == Some([major, minor])
    ensures Finish(st, lastBound) == st.out + [Version(st.start + ".0", Format([major, minor + 1, 0]), "")]
  {
    SeriesCloseOfTwo(lastBound, major, minor);
  }

  /**
    A lone series marker "M.N": the merge emits the single range from
    "M.N.0" to "M.(N+1).0".
   */
  lemma LoneSeriesIsClosed(marker: Version, major: nat, minor: nat)
    requires IsSeries(marker.introduced) && ParseDotted(marker.introduced) == Some([major, minor])
    ensures MergeSorted([marker]) == [Version(marker.introduced + ".0", Format([major, minor + 1, 0]), "")]
  {
    var s := [marker];
    var st := Run(Initial, s);
    assert st == ScanState(marker.introduced, "", []) by {
      assert s[1..] == [];
      assert Run(Initial, s) == Run(Step(Initial, marker), []);
    }
    FinishCloses(st, marker.introduced, major, minor);
    assert [] + [Version(marker.introduced + ".0", Format([major, minor + 1, 0]), "")]
      == [Version(marker.introduced + ".0", Format([major, minor + 1, 0]), "")];
  }

  /**
    A series marker whose last sorted entry does not parse is lost: the entry
    after it is not patch-level, so the open series drops it, and the
    end-of-scan close finds no fixed version in the unparseable text. The
    merge then emits nothing at all, although the marker itself parses.
   */
  lemma UnparseableLastLosesSeries(marker: Version, other: Version)
    requires IsSeries(marker.introduced)
    requires !IsPatch(other.introduced) && !Parses(other.introduced)
    ensures MergeVersionRange([marker, other]) == []
  {
    SortPairInOrder(marker, other);
    var s := [marker, other];
    var open := ScanState(marker.introduced, "", []);
    assert Run(Initial, s) == Run(open, [other]) by {
      assert s[0] == marker && s[1..] == [other];
    }
    assert Run(open, [other]) == Run(open, []) by {
      assert Step(open, other) == open;
      assert [other][0] == other && [other][1..] == [];
    }
    assert s[|s| - 1] == other;
    assert SeriesClose(other.introduced).None? by {
      SeriesCloseValue(other.introduced);
    }
  }
}
