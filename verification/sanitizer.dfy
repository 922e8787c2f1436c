/**
  The version sanitiser of the CVE-registry collector: an ordered cascade of
  rewrites over one affected-version entry `(version, lessThanOrEqual,
  lessThan)` guarded by two rejection rules. Each rewrite reads the fields as
  the earlier rewrites left them, exactly as the Go function mutates its
  argument in place. The final `v`/`V` prefix trim belongs to a helper that
  is not part of this model, so it is a parameter.
 */
module Sanitizer {
  import opened Optional
  import opened GoStrings
  import opened Dotted

  /** One entry of an advisory's affected-versions list. */
  datatype MitreVersion = MitreVersion(
    status: string,
    version: string,
    lessThanOrEqual: string,
    lessThan: string)

  /** The two rejection rules: a not-applicable version with no comparator, or an unspecified bound. */
  predicate Rejected(v: MitreVersion) {
    || (Contains(v.version, "n/a") && |v.lessThan| == 0 && |v.lessThanOrEqual| == 0)
    || ((v.lessThanOrEqual == "unspecified" || v.lessThan == "unspecified") && |v.version| > 0)
  }

  // ---------------------------------------------------------------------------
  // The rewrites, in the order the cascade applies them.

  /** A bare "<=" in the inclusive bound is a placeholder for the version itself. */
  function PlaceholderStep(v: MitreVersion): MitreVersion {
    if v.lessThanOrEqual == "<=" then v.(lessThanOrEqual := v.version) else v
  }

  /** A version written "< X" moves X into the exclusive bound. */
  function LessThanTextStep(v: MitreVersion): MitreVersion {
    if HasPrefix(v.version, "< ") then v.(lessThan := TrimPrefix(v.version, "< ")) else v
  }

  /** A version written "<= X" moves X into the inclusive bound. */
  function LessEqualTextStep(v: MitreVersion): MitreVersion {
    if HasPrefix(v.version, "<= ") then v.(lessThanOrEqual := TrimPrefix(v.version, "<= ")) else v
  }

  /** The bound named by "prior to X", with ".0" appended when X is a bare major.minor. */
  function PriorToBound(version: string): string {
    var bound := TrimSpace(TrimPrefix(version, "prior to"));
    if CountChar(bound, '.') == 1 then bound + ".0" else bound
  }

  /** A version written "prior to X" becomes both the version and the exclusive bound. */
  function PriorToStep(v: MitreVersion): MitreVersion {
    if HasPrefix(TrimSpace(v.version), "prior to") then
      var bound := PriorToBound(v.version);
      v.(lessThan := bound, version := bound)
    else v
  }

  /** An exclusive bound written "prior to ..." is replaced; the replacement is read from the version field. */
  function PriorToLessThanStep(v: MitreVersion): MitreVersion {
    if HasPrefix(TrimSpace(v.lessThan), "prior to") then
      v.(lessThan := TrimSpace(TrimPrefix(v.version, "prior to")))
    else v
  }

  /** An exclusive bound ending in "*" names a series with no fix: it becomes the version. */
  function WildcardStep(v: MitreVersion): MitreVersion {
    if HasSuffix(TrimSpace(v.lessThan), "*") then
      v.(version := TrimSpace(RemoveAll(v.lessThan, "*")), lessThan := "")
    else v
  }

  /** A version ending in ".x" is cut just before its last dot. */
  function SeriesSuffixStep(v: MitreVersion): MitreVersion {
    if HasSuffix(TrimSpace(v.version), ".x") then
      DotInsideSeriesSuffix(v.version);
      var k := LastIndex(v.version, '.');
      v.(version := TrimSpace(v.version[..k]))
    else v
  }

  /** A string that trims to something ending in ".x" contains a dot. */
  lemma DotInsideSeriesSuffix(s: string)
    requires HasSuffix(TrimSpace(s), ".x")
    ensures '.' in s
  {
    var t := TrimSpace(s);
    assert t[|t| - 2] == '.';
    TrimSpaceChar(s, |t| - 2);
  }

  /** Any "<=" left inside the inclusive bound is removed. */
  function ResidualLessEqualStep(v: MitreVersion): (r: MitreVersion)
    ensures r.version == v.version && r.lessThan == v.lessThan
  {
    if Contains(v.lessThanOrEqual, "<=") then
      v.(lessThanOrEqual := TrimSpace(RemoveAll(TrimSpace(v.lessThanOrEqual), "<=")))
    else v
  }

  /** The rules reading comparator wording: the "<=" placeholder, "< X" and "<= X". */
  function ComparatorTextStage(v: MitreVersion): (r: MitreVersion)
    ensures r.version == v.version
    ensures !HasPrefix(v.version, "< ") ==> r.lessThan == v.lessThan
  {
    LessEqualTextStep(LessThanTextStep(PlaceholderStep(v)))
  }

  /** The two "prior to" rules. */
  function PriorToStage(v: MitreVersion): (r: MitreVersion)
    ensures r.lessThanOrEqual == v.lessThanOrEqual
    ensures !HasPrefix(TrimSpace(v.version), "prior to") ==> r.version == v.version
  {
    PriorToLessThanStep(PriorToStep(v))
  }

  /** The two wildcard rules: "X*" bounds and ".x" versions. */
  function WildcardStage(v: MitreVersion): (r: MitreVersion)
    ensures r.lessThanOrEqual == v.lessThanOrEqual
    ensures !HasSuffix(TrimSpace(v.lessThan), "*") ==> r.lessThan == v.lessThan
  {
    SeriesSuffixStep(WildcardStep(v))
  }

  /** The whole rewrite cascade, before the final prefix trim. */
  function Rewrite(v: MitreVersion): MitreVersion {
    ResidualLessEqualStep(WildcardStage(PriorToStage(ComparatorTextStage(v))))
  }

  /**
    The sanitiser: `None` for a rejected entry; otherwise the rewritten fields,
    each passed through the prefix trim `trim`, in a fresh entry whose status
    is empty (the Go code builds a new record holding only the three fields).
   */
  function Sanitize(v: MitreVersion, trim: string -> string): (r: Option<MitreVersion>)
    ensures r.None? <==>
      || (Contains(v.version, "n/a") && v.lessThan == "" && v.lessThanOrEqual == "")
      || ((v.lessThanOrEqual == "unspecified" || v.lessThan == "unspecified") && v.version != "")
    ensures r.Some? ==> r.value.status == ""
    ensures r.Some? ==>
      && r.value.version == trim(Rewrite(v).version)
      && r.value.lessThanOrEqual == trim(Rewrite(v).lessThanOrEqual)
      && r.value.lessThan == trim(Rewrite(v).lessThan)
  {
    if Rejected(v) then None
    else
      var w := Rewrite(v);
      Some(MitreVersion("", trim(w.version), trim(w.lessThanOrEqual), trim(w.lessThan)))
  }

  // ---------------------------------------------------------------------------
  // What the cascade does to the shapes of entry found in advisories.

  /** Text made of digits and dots is inert for every textual rule of the cascade. */
  lemma NumericTextIsInert(s: string)
    requires DigitsAndDots(s)
    ensures NoSpace(s) && TrimSpace(s) == s
    ensures !HasPrefix(s, "prior to") && !HasPrefix(s, "< ")
    ensures !HasSuffix(s, "*") && !HasSuffix(s, ".x")
  {
    if |s| > 0 {
      assert IsDigit(s[0]) || s[0] == '.';
      assert IsDigit(s[|s| - 1]) || s[|s| - 1] == '.';
    }
  }

  /** A string whose first character is neither space nor `p`'s first character does not trim to something starting with `p`. */
  lemma TrimmedFirstChar(s: string, p: string)
    requires |s| > 0 && !IsSpace(s[0]) && |p| > 0 && s[0] != p[0]
    ensures !HasPrefix(TrimSpace(s), p)
  {
    TrimSpaceFromNonSpace(s);
    var r := TrimSpace(s);
    if |r| > 0 {
      assert r[0] == s[0];
    }
  }

  /** Appending a ".0" segment keeps text numeric. */
  lemma AppendZeroSegment(x: string)
    requires DigitsAndDots(x)
    ensures DigitsAndDots(x + ".0")
  {
    var x0 := x + ".0";
    forall k | 0 <= k < |x0|
      ensures IsDigit(x0[k]) || x0[k] == '.'
    {
      if k >= |x| {
        assert x0[k] == ".0"[k - |x|];
      }
    }
  }

  /** The wildcard rules leave an entry whose version and exclusive bound are numeric text untouched. */
  lemma WildcardStageInert(v: MitreVersion)
    requires DigitsAndDots(v.version) && DigitsAndDots(v.lessThan)
    ensures WildcardStage(v) == v
  {
    NumericTextIsInert(v.version);
    NumericTextIsInert(v.lessThan);
    assert WildcardStep(v) == v;
  }

  /** With no "prior to" wording in either field the phrase rules do nothing. */
  lemma PriorToStageIdle(v: MitreVersion)
    requires !HasPrefix(TrimSpace(v.version), "prior to")
    requires !HasPrefix(TrimSpace(v.lessThan), "prior to")
    ensures PriorToStage(v) == v
  {
    assert PriorToStep(v) == v;
  }

  /** A star bound becomes the version and is cleared; then the ".x" rule sees that version. */
  lemma WildcardStageOnStar(v: MitreVersion)
    requires HasSuffix(TrimSpace(v.lessThan), "*")
    ensures var x := TrimSpace(RemoveAll(v.lessThan, "*"));
      && WildcardStage(v).lessThan == ""
      && (!HasSuffix(x, ".x") ==> WildcardStage(v).version == x)
      && (HasSuffix(x, ".x") ==>
            var k := LastIndex(x, '.'); 0 <= k && WildcardStage(v).version == TrimSpace(x[..k]))
  {
    var x := TrimSpace(RemoveAll(v.lessThan, "*"));
    var w := WildcardStep(v);
    assert w == v.(version := x, lessThan := "");
    TrimSpaceIdempotent(RemoveAll(v.lessThan, "*"));
    assert TrimSpace(x) == x;
    assert WildcardStage(v) == SeriesSuffixStep(w);
    if HasSuffix(x, ".x") {
      DotInsideSeriesSuffix(x);
    } else {
      assert SeriesSuffixStep(w) == w;
    }
  }

  /** Without a star bound only the ".x" rule can act on the version. */
  lemma WildcardStageNoStar(v: MitreVersion)
    requires !HasSuffix(TrimSpace(v.lessThan), "*")
    ensures WildcardStage(v) == SeriesSuffixStep(v)
  {
    assert WildcardStep(v) == v;
  }

  /**
    "prior to X": when X (after trimming spaces) is numeric text, both the
    version and the exclusive bound become X, with ".0" appended when X is a
    bare major.minor.
   */
  lemma PriorToBecomesBound(v: MitreVersion, w: string, x: string)
    requires v.version == "prior to" + w
    requires TrimSpace(w) == x && DigitsAndDots(x)
    ensures CountChar(x, '.') == 1 ==> Rewrite(v).version == x + ".0" && Rewrite(v).lessThan == x + ".0"
    ensures CountChar(x, '.') != 1 ==> Rewrite(v).version == x && Rewrite(v).lessThan == x
  {
    var u := ComparatorTextStage(v);
    TrimSpaceKeepsPrefix("prior to", w);
    assert TrimPrefix(v.version, "prior to") == w;
    var bound := if CountChar(x, '.') == 1 then x + ".0" else x;
    assert PriorToBound(v.version) == bound;
    AppendZeroSegment(x);
    NumericTextIsInert(bound);
    var p := PriorToStage(u);
    assert PriorToStep(u) == u.(lessThan := bound, version := bound);
    assert p.version == bound && p.lessThan == bound;
    WildcardStageInert(p);
  }

  /**
    A wildcard bound "X*" (with no "prior to" or "< " wording in play) is
    cleared and its star-free trimmed text becomes the version; that text is
    cut at its last dot when it ends in ".x".
   */
  lemma WildcardBecomesVersion(v: MitreVersion)
    requires !HasPrefix(v.version, "< ")
    requires !HasPrefix(TrimSpace(v.version), "prior to")
    requires !HasPrefix(TrimSpace(v.lessThan), "prior to")
    requires HasSuffix(TrimSpace(v.lessThan), "*")
    ensures Rewrite(v).lessThan == ""
    ensures var x := TrimSpace(RemoveAll(v.lessThan, "*"));
      && (!HasSuffix(x, ".x") ==> Rewrite(v).version == x)
      && (HasSuffix(x, ".x") ==>
            var k := LastIndex(x, '.'); 0 <= k && Rewrite(v).version == TrimSpace(x[..k]))
  {
    var u := ComparatorTextStage(v);
    assert u.version == v.version && u.lessThan == v.lessThan;
    PriorToStageIdle(u);
    WildcardStageOnStar(u);
  }

  /**
    A version ending in ".x" (with no comparator wording that would replace it)
    is cut just before its last dot and trimmed.
   */
  lemma SeriesSuffixIsCut(v: MitreVersion)
    requires !HasPrefix(v.version, "< ")
    requires !HasPrefix(TrimSpace(v.version), "prior to")
    requires !HasPrefix(TrimSpace(v.lessThan), "prior to")
    requires !HasSuffix(TrimSpace(v.lessThan), "*")
    requires HasSuffix(TrimSpace(v.version), ".x")
    ensures var k := LastIndex(v.version, '.');
      && 0 <= k && v.version[k] == '.' && '.' !in v.version[k + 1..]
      && Rewrite(v).version == TrimSpace(v.version[..k])
  {
    DotInsideSeriesSuffix(v.version);
    var u := ComparatorTextStage(v);
    assert u.version == v.version && u.lessThan == v.lessThan;
    PriorToStageIdle(u);
    WildcardStageNoStar(u);
  }

  /** The comparator-wording rules put the text after "< " into the exclusive bound. */
  lemma ComparatorTextOnLessThan(v: MitreVersion)
    requires HasPrefix(v.version, "< ")
    ensures ComparatorTextStage(v).lessThan == v.version[2..]
  {
    assert v.version[1] == ' ';
    assert !HasPrefix(v.version, "<= ");
  }

  /**
    "< X" fills the exclusive bound with X; the version field itself keeps the
    "< X" text (the cascade never clears it) unless it ends in ".x".
   */
  lemma LessThanTextFillsBound(v: MitreVersion, rest: string)
    requires v.version == "< " + rest
    requires !HasPrefix(TrimSpace(rest), "prior to")
    requires !HasSuffix(TrimSpace(rest), "*")
    requires !HasSuffix(TrimSpace(v.version), ".x")
    ensures Rewrite(v).lessThan == rest
    ensures Rewrite(v).version == v.version
  {
    var u := ComparatorTextStage(v);
    ComparatorTextOnLessThan(v);
    assert v.version[2..] == rest;
    TrimmedFirstChar(v.version, "prior to");
    PriorToStageIdle(u);
    WildcardStageNoStar(u);
    assert SeriesSuffixStep(u) == u;
  }

  /** "<= X" fills the inclusive bound with X when X holds no further "<=". */
  lemma LessEqualTextFillsBound(v: MitreVersion)
    requires HasPrefix(v.version, "<= ")
    requires !Contains(v.version[3..], "<=")
    ensures Rewrite(v).lessThanOrEqual == v.version[3..]
  {
    var u := ComparatorTextStage(v);
    assert u.lessThanOrEqual == v.version[3..];
  }

  /** A bare "<=" inclusive bound takes the version's text when that holds no "<=". */
  lemma PlaceholderTakesVersion(v: MitreVersion)
    requires v.lessThanOrEqual == "<="
    requires !Contains(v.version, "<=")
    ensures Rewrite(v).lessThanOrEqual == v.version
  {
    assert !HasPrefix(v.version, "<= ");
    var u := ComparatorTextStage(v);
    assert u.lessThanOrEqual == v.version;
  }

  /** Any other inclusive bound containing "<=" loses every "<=" and surrounding space. */
  lemma ResidualLessEqualIsStripped(v: MitreVersion)
    requires v.lessThanOrEqual != "<="
    requires !HasPrefix(v.version, "<= ")
    requires Contains(v.lessThanOrEqual, "<=")
    ensures Rewrite(v).lessThanOrEqual == TrimSpace(RemoveAll(TrimSpace(v.lessThanOrEqual), "<="))
  {
    var u := ComparatorTextStage(v);
    assert u.lessThanOrEqual == v.lessThanOrEqual;
  }

  /**
    An exclusive bound written "prior to Y" is replaced by the trimmed VERSION
    text, not by Y: the rule reads the version field when it strips the phrase.
   */
  lemma PriorToLessThanReadsVersion(v: MitreVersion)
    requires HasPrefix(TrimSpace(v.lessThan), "prior to")
    requires !HasPrefix(v.version, "< ")
    requires !HasPrefix(TrimSpace(v.version), "prior to")
    requires !HasSuffix(TrimSpace(v.version), "*")
    ensures Rewrite(v).lessThan == TrimSpace(v.version)
  {
    var u := ComparatorTextStage(v);
    assert u.version == v.version && u.lessThan == v.lessThan;
    var p := PriorToStage(u);
    assert p.lessThan == TrimSpace(v.version) && p.version == v.version by {
      PriorToStepIdle(u);
      NoPhraseNoStrip(v.version);
    }
    assert WildcardStep(p) == p by {
      TrimSpaceIdempotent(v.version);
    }
  }

  /** Without "prior to" at the head of the trimmed version, the version rule does nothing. */
  lemma PriorToStepIdle(u: MitreVersion)
    requires !HasPrefix(TrimSpace(u.version), "prior to")
    ensures PriorToStep(u) == u
  {
  }

  /** Text that does not trim to something starting with "prior to" does not start with it either. */
  lemma NoPhraseNoStrip(s: string)
    requires !HasPrefix(TrimSpace(s), "prior to")
    ensures TrimPrefix(s, "prior to") == s
  {
    if HasPrefix(s, "prior to") {
      assert s == "prior to" + s[8..];
      TrimSpaceKeepsPrefix("prior to", s[8..]);
    }
  }

  /** Numeric text holds no character other than digits and dots. */
  lemma NumericLacks(s: string, c: char)
    requires DigitsAndDots(s) && !IsDigit(c) && c != '.'
    ensures c !in s
  {
  }

  /** Numeric fields meet neither rejection rule. */
  lemma NumericNotRejected(v: MitreVersion)
    requires DigitsAndDots(v.version) && DigitsAndDots(v.lessThanOrEqual) && DigitsAndDots(v.lessThan)
    ensures !Rejected(v)
  {
    NumericLacks(v.version, 'n');
    NotContainsByChar(v.version, "n/a", 'n');
    NumericLacks(v.lessThanOrEqual, 'u');
    NumericLacks(v.lessThan, 'u');
    assert "unspecified"[0] == 'u';
  }

  /** The comparator-wording rules leave numeric fields alone. */
  lemma ComparatorTextInert(v: MitreVersion)
    requires DigitsAndDots(v.version) && DigitsAndDots(v.lessThanOrEqual)
    ensures ComparatorTextStage(v) == v
  {
    NumericLacks(v.version, '<');
    NumericLacks(v.lessThanOrEqual, '<');
    assert "<="[0] == '<';
  }

  /**
    An entry whose three fields are numeric text (digits and dots, as
    "1.26" or "1.27.3") is never rejected and passes the whole cascade
    unchanged: the sanitiser returns its fields with only the prefix trim
    applied, and its status cleared.
   */
  lemma NumericEntryPassesThrough(v: MitreVersion, trim: string -> string)
    requires DigitsAndDots(v.version) && DigitsAndDots(v.lessThanOrEqual) && DigitsAndDots(v.lessThan)
    ensures Rewrite(v) == v
    ensures Sanitize(v, trim) == Some(MitreVersion("", trim(v.version), trim(v.lessThanOrEqual), trim(v.lessThan)))
  {
    NumericNotRejected(v);
    ComparatorTextInert(v);
    NumericTextIsInert(v.version);
    NumericTextIsInert(v.lessThan);
    PriorToStageIdle(v);
    WildcardStageInert(v);
    NumericLacks(v.lessThanOrEqual, '<');
    NotContainsByChar(v.lessThanOrEqual, "<=", '<');
    assert ResidualLessEqualStep(v) == v;
  }
}
