/**
  Numeric dotted versions ("1", "1.26", "1.27.3"): the stand-in for the
  version parser the merge step sorts with. A version parses when it is one or
  more non-empty groups of decimal digits separated by single dots; two parsed
  versions compare segment by segment, a missing segment counting as zero
  (so "1.2" and "1.2.0" are equal).
 */
module Dotted {
  import opened Optional
  import opened GoStrings

  predicate IsDigit(c: char) {
    '0' <= c <= '9'
  }

  predicate AllDigits(s: string) {
    forall k :: 0 <= k < |s| ==> IsDigit(s[k])
  }

  /** Every character is a digit or a dot. */
  predicate DigitsAndDots(s: string) {
    forall k :: 0 <= k < |s| ==> IsDigit(s[k]) || s[k] == '.'
  }

  function DigitChar(d: nat): (c: char)
    requires d < 10
    ensures IsDigit(c)
  {
    ['0', '1', '2', '3', '4', '5', '6', '7', '8', '9'][d]
  }

  function DigitValue(c: char): (d: nat)
    requires IsDigit(c)
    ensures d < 10
  {
    (c as int) - ('0' as int)
  }

  /** The decimal value of a string of digits (Go's `strconv.Atoi` on such a string). */
  function ValueOf(s: string): nat
    requires AllDigits(s)
    decreases |s|
  {
    if |s| == 0 then 0 else ValueOf(s[..|s| - 1]) * 10 + DigitValue(s[|s| - 1])
  }

  /** Decimal rendering of a natural number, as `fmt.Sprintf("%d", n)` writes it. */
  function NatToString(n: nat): (s: string)
    ensures |s| > 0 && AllDigits(s)
    ensures ValueOf(s) == n
    decreases n
  {
    if n < 10 then
      assert DigitValue(DigitChar(n)) == n;
      [DigitChar(n)]
    else
      var front := NatToString(n / 10);
      var s := front + [DigitChar(n % 10)];
      assert s[..|s| - 1] == front;
      assert DigitValue(DigitChar(n % 10)) == n % 10;
      s
  }

  /** Length of the run of digits `s` starts with. */
  function LeadingDigits(s: string): (n: nat)
    ensures n <= |s|
    ensures AllDigits(s[..n])
    ensures n < |s| ==> !IsDigit(s[n])
    decreases |s|
  {
    if |s| > 0 && IsDigit(s[0]) then
      var m := LeadingDigits(s[1..]);
      assert s[..m + 1] == [s[0]] + s[1..][..m];
      1 + m
    else 0
  }

  /** Parses a dotted numeric version into its segments; `None` when it is not one. */
  function ParseDotted(s: string): (r: Option<seq<nat>>)
    ensures r.Some? ==> |r.value| > 0
    decreases |s|
  {
    var n := LeadingDigits(s);
    if n == 0 then None
    else if n == |s| then Some([ValueOf(s)])
    else if s[n] != '.' then None
    else
      match ParseDotted(s[n + 1..])
      case None => None
      case Some(rest) => Some([ValueOf(s[..n])] + rest)
  }

  /** The canonical text of a segment list: decimal segments joined by dots. */
  function Format(segs: seq<nat>): (s: string)
    requires |segs| > 0
    ensures |s| > 0
    decreases |segs|
  {
    if |segs| == 1 then NatToString(segs[0])
    else NatToString(segs[0]) + "." + Format(segs[1..])
  }

  /** Compares two segment lists, a missing segment counting as zero: -1, 0 or 1. */
  function Compare(a: seq<nat>, b: seq<nat>): (c: int)
    ensures -1 <= c <= 1
    decreases |a| + |b|
  {
    if |a| == 0 && |b| == 0 then 0
    else
      var x := if |a| > 0 then a[0] else 0;
      var y := if |b| > 0 then b[0] else 0;
      if x < y then -1
      else if x > y then 1
      else Compare(if |a| > 0 then a[1..] else a, if |b| > 0 then b[1..] else b)
  }

  /**
    The sort comparator on two `Introduced` strings: false as soon as either
    side fails to parse, otherwise numeric "strictly less".
   */
  predicate Less(a: string, b: string) {
    match (ParseDotted(a), ParseDotted(b))
    case (Some(x), Some(y)) => Compare(x, y) < 0
    case _ => false
  }

  /** True when `s` parses as a dotted numeric version. */
  predicate Parses(s: string) {
    ParseDotted(s).Some?
  }

  // ---------------------------------------------------------------------------
  // Facts.

  /** A run of digits followed by a non-digit (or nothing) has exactly that many leading digits. */
  lemma {:induction false} LeadingDigitsOf(d: string, t: string)
    requires AllDigits(d)
    requires |t| == 0 || !IsDigit(t[0])
    ensures LeadingDigits(d + t) == |d|
    decreases |d|
  {
    if |d| > 0 {
      assert (d + t)[1..] == d[1..] + t;
      LeadingDigitsOf(d[1..], t);
    } else {
      assert d + t == t;
    }
  }

  /** A non-empty run of digits parses as a one-segment version. */
  lemma ParseDigits(d: string)
    requires |d| > 0 && AllDigits(d)
    ensures ParseDotted(d) == Some([ValueOf(d)])
  {
    LeadingDigitsOf(d, "");
    assert d + "" == d;
    assert d[..|d|] == d;
  }

  /** Digits, a dot, then more: the first segment followed by whatever the rest parses to. */
  lemma ParseDigitsDot(d: string, t: string)
    requires |d| > 0 && AllDigits(d)
    ensures ParseDotted(d + "." + t) ==
      match ParseDotted(t)
      case None => None
      case Some(rest) => Some([ValueOf(d)] + rest)
  {
    var y := d + "." + t;
    assert y == d + ("." + t);
    LeadingDigitsOf(d, "." + t);
    assert y[..|d|] == d;
    assert y[|d|] == '.';
    assert y[|d| + 1..] == t;
  }

  /** Parsing the canonical text of a segment list gives the list back. */
  lemma {:induction false} ParseFormat(segs: seq<nat>)
    requires |segs| > 0
    ensures ParseDotted(Format(segs)) == Some(segs)
    decreases |segs|
  {
    var d := NatToString(segs[0]);
    if |segs| == 1 {
      assert d + "" == d;
      LeadingDigitsOf(d, "");
      assert Format(segs) == d;
      assert LeadingDigits(d) == |d|;
      assert ParseDotted(d) == Some([ValueOf(d)]);
      assert [segs[0]] == segs;
    } else {
      var tail := Format(segs[1..]);
      var s := d + ("." + tail);
      assert Format(segs) == s;
      LeadingDigitsOf(d, "." + tail);
      assert s[..|d|] == d;
      assert s[|d| + 1..] == tail;
      ParseFormat(segs[1..]);
      assert [segs[0]] + segs[1..] == segs;
    }
  }

  /** Swapping the arguments of `Compare` negates the result. */
  lemma {:induction false} CompareAntisymmetric(a: seq<nat>, b: seq<nat>)
    ensures Compare(a, b) == -Compare(b, a)
    decreases |a| + |b|
  {
    if |a| == 0 && |b| == 0 {
    } else {
      CompareAntisymmetric(if |a| > 0 then a[1..] else a, if |b| > 0 then b[1..] else b);
    }
  }

  /** "Less than or equal" under `Compare` is transitive, and a chain through a strict step stays strict. */
  lemma {:induction false} CompareTransitive(a: seq<nat>, b: seq<nat>, c: seq<nat>)
    requires Compare(a, b) <= 0 && Compare(b, c) <= 0
    ensures Compare(a, c) <= 0
    ensures Compare(a, c) == 0 ==> Compare(a, b) == 0 && Compare(b, c) == 0
    decreases |a| + |b| + |c|
  {
    if |a| == 0 && |b| == 0 && |c| == 0 {
    } else {
      var a' := if |a| > 0 then a[1..] else a;
      var b' := if |b| > 0 then b[1..] else b;
      var c' := if |c| > 0 then c[1..] else c;
      var x := if |a| > 0 then a[0] else 0;
      var y := if |b| > 0 then b[0] else 0;
      var z := if |c| > 0 then c[0] else 0;
      if x == y && y == z {
        assert Compare(a, b) == Compare(a', b');
        assert Compare(b, c) == Compare(b', c');
        assert Compare(a, c) == Compare(a', c');
        CompareTransitive(a', b', c');
      }
    }
  }

  /** The comparator is a strict order on the versions that parse: irreflexive and transitive. */
  lemma LessIsStrictOrder(a: string, b: string, c: string)
    ensures !Less(a, a)
    ensures Less(a, b) ==> !Less(b, a)
    ensures Less(a, b) && Less(b, c) ==> Less(a, c)
  {
    if Parses(a) {
      CompareAntisymmetric(ParseDotted(a).value, ParseDotted(a).value);
    }
    if Parses(a) && Parses(b) {
      CompareAntisymmetric(ParseDotted(a).value, ParseDotted(b).value);
    }
    if Less(a, b) && Less(b, c) {
      CompareTransitive(ParseDotted(a).value, ParseDotted(b).value, ParseDotted(c).value);
    }
  }

  /**
    On versions that parse, "not less" in one direction is "at most" in the
    other, and it chains: the comparator's complement is transitive there.
   */
  lemma NotLessTransitive(a: string, b: string, c: string)
    requires Parses(a) && Parses(b) && Parses(c)
    requires !Less(b, a) && !Less(c, b)
    ensures !Less(c, a)
  {
    var x, y, z := ParseDotted(a).value, ParseDotted(b).value, ParseDotted(c).value;
    CompareAntisymmetric(y, x);
    CompareAntisymmetric(z, y);
    CompareAntisymmetric(z, x);
    CompareTransitive(x, y, z);
  }

  /** Appending ".0" to a parsed version appends a zero segment. */
  lemma {:induction false} ParseAppendZero(x: string)
    requires Parses(x)
    ensures ParseDotted(x + ".0") == Some(ParseDotted(x).value + [0])
    decreases |x|
  {
    var n := LeadingDigits(x);
    var d := x[..n];
    if n == |x| {
      assert d == x;
      DigitsAppendZero(x);
      ParseDigits(x);
      assert [ValueOf(x)] + [0] == [ValueOf(x), 0];
    } else {
      var t := x[n + 1..];
      assert x == d + "." + t;
      assert Parses(t) by {
        ParseDigitsDot(d, t);
      }
      ParseAppendZero(t);
      AppendZeroAfterDot(d, t);
    }
  }

  /** The inductive step of `ParseAppendZero`: one leading segment in front. */
  lemma AppendZeroAfterDot(d: string, t: string)
    requires |d| > 0 && AllDigits(d) && Parses(t)
    requires ParseDotted(t + ".0") == Some(ParseDotted(t).value + [0])
    ensures Parses(d + "." + t)
    ensures ParseDotted(d + "." + t + ".0") == Some(ParseDotted(d + "." + t).value + [0])
  {
    var rest := ParseDotted(t).value;
    ParseDigitsDot(d, t);
    assert ParseDotted(d + "." + t) == Some([ValueOf(d)] + rest);
    assert ParseDotted(d + "." + t + ".0") == Some([ValueOf(d)] + (rest + [0])) by {
      assert d + "." + t + ".0" == d + "." + (t + ".0");
      ParseDigitsDot(d, t + ".0");
    }
    assert [ValueOf(d)] + (rest + [0]) == ([ValueOf(d)] + rest) + [0];
  }

  /** "0" is a run of digits whose value is 0. */
  lemma ZeroDigit()
    ensures AllDigits("0") && ValueOf("0") == 0
  {
    var zero := "0";
    assert zero[..|zero| - 1] == "";
    assert DigitValue(zero[0]) == 0;
  }

  /** Two runs of digits joined by a dot parse as two segments. */
  lemma ParseTwoRuns(d: string, t: string)
    requires |d| > 0 && AllDigits(d) && |t| > 0 && AllDigits(t)
    ensures ParseDotted(d + "." + t) == Some([ValueOf(d), ValueOf(t)])
  {
    ParseDigits(t);
    ParseDigitsDot(d, t);
    assert [ValueOf(d)] + [ValueOf(t)] == [ValueOf(d), ValueOf(t)];
  }

  /** A run of digits with ".0" appended parses as two segments, the second zero. */
  lemma DigitsAppendZero(x: string)
    requires |x| > 0 && AllDigits(x)
    ensures ParseDotted(x + ".0") == Some([ValueOf(x), 0])
  {
    ZeroDigit();
    ParseTwoRuns(x, "0");
    assert x + "." + "0" == x + ".0";
  }

  /** Text that does not parse still does not parse with ".0" appended. */
  lemma {:induction false} NoParseAppendZero(x: string)
    requires !Parses(x)
    ensures !Parses(x + ".0")
    decreases |x|
  {
    var n := LeadingDigits(x);
    var y := x + ".0";
    if n == 0 {
      if |x| > 0 {
        assert y[0] == x[0];
      }
      LeadingDigitsOf("", y);
      assert "" + y == y;
    } else {
      var d := x[..n];
      LeadingDigitsOf(d, x[n..] + ".0");
      assert y == d + (x[n..] + ".0");
      assert y[n] == x[n];
      if x[n] == '.' {
        var t := x[n + 1..];
        assert x == d + "." + t;
        ParseDigitsDot(d, t);
        NoParseAppendZero(t);
        assert y == d + "." + (t + ".0");
        ParseDigitsDot(d, t + ".0");
      }
    }
  }
}
