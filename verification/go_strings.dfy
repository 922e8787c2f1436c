/**
  The handful of Go `strings` package operations the version pipeline relies on,
  written over `seq<char>` with the semantics of the Go library functions
  (`TrimSpace`, `HasPrefix`, `HasSuffix`, `TrimPrefix`, `Contains`, `Count`,
  `LastIndex` and `ReplaceAll(s, old, "")`).
 */
module GoStrings {

  /** White space as Go's `unicode.IsSpace` defines it (the predicate used by `strings.TrimSpace`). */
  predicate IsSpace(c: char) {
    || c == ' ' || c == '\t' || c == '\n' || c == '\r' || c == '\U{000B}' || c == '\U{000C}'
    || c == '\U{0085}' || c == '\U{00A0}' || c == '\U{1680}'
    || ('\U{2000}' <= c <= '\U{200A}')
    || c == '\U{2028}' || c == '\U{2029}' || c == '\U{202F}' || c == '\U{205F}' || c == '\U{3000}'
  }

  /** True when no character of `s` is white space. */
  predicate NoSpace(s: string) {
    forall k :: 0 <= k < |s| ==> !IsSpace(s[k])
  }

  /** True when every character of `s` is white space (so the empty string is blank). */
  predicate Blank(s: string) {
    forall k :: 0 <= k < |s| ==> IsSpace(s[k])
  }

  /** Drops leading white space: the result is a suffix of `s` and everything dropped is space. */
  function TrimLeft(s: string): (r: string)
    ensures |r| <= |s| && r == s[|s| - |r|..]
    ensures |r| > 0 ==> !IsSpace(r[0])
    ensures forall k :: 0 <= k < |s| - |r| ==> IsSpace(s[k])
    decreases |s|
  {
    if |s| > 0 && IsSpace(s[0]) then TrimLeft(s[1..]) else s
  }

  /** Drops trailing white space: the result is a prefix of `s` and everything dropped is space. */
  function TrimRight(s: string): (r: string)
    ensures |r| <= |s| && r == s[..|r|]
    ensures |r| > 0 ==> !IsSpace(r[|r| - 1])
    ensures forall k :: |r| <= k < |s| ==> IsSpace(s[k])
    decreases |s|
  {
    if |s| > 0 && IsSpace(s[|s| - 1]) then TrimRight(s[..|s| - 1]) else s
  }

  /** Go's `strings.TrimSpace`. */
  function TrimSpace(s: string): (r: string)
    ensures |r| <= |s|
    ensures |r| > 0 ==> !IsSpace(r[0]) && !IsSpace(r[|r| - 1])
    ensures NoSpace(s) ==> r == s
  {
    TrimRight(TrimLeft(s))
  }

  /** Go's `strings.HasPrefix`. */
  predicate HasPrefix(s: string, p: string) {
    |p| <= |s| && s[..|p|] == p
  }

  /** Go's `strings.HasSuffix`. */
  predicate HasSuffix(s: string, p: string) {
    |p| <= |s| && s[|s| - |p|..] == p
  }

  /** Go's `strings.TrimPrefix`: removes `p` once when `s` starts with it. */
  function TrimPrefix(s: string, p: string): (r: string)
    ensures HasPrefix(s, p) ==> s == p + r
    ensures !HasPrefix(s, p) ==> r == s
  {
    if HasPrefix(s, p) then s[|p|..] else s
  }

  /** Go's `strings.Contains`: `p` occurs somewhere in `s`. */
  predicate Contains(s: string, p: string)
    decreases |s|
  {
    HasPrefix(s, p) || (|s| > 0 && Contains(s[1..], p))
  }

  /** Go's `strings.Count` for a one-character separator. */
  function CountChar(s: string, c: char): (n: nat)
    ensures n <= |s|
    ensures n == 0 <==> c !in s
    decreases |s|
  {
    if |s| == 0 then 0 else (if s[0] == c then 1 else 0) + CountChar(s[1..], c)
  }

  /** Go's `strings.LastIndex` for a one-character needle; -1 when absent. */
  function LastIndex(s: string, c: char): (i: int)
    ensures -1 <= i < |s|
    ensures i == -1 <==> c !in s
    ensures 0 <= i ==> s[i] == c && c !in s[i + 1..]
    decreases |s|
  {
    if |s| == 0 then -1
    else if s[|s| - 1] == c then |s| - 1
    else LastIndex(s[..|s| - 1], c)
  }

  /**
    Go's `strings.ReplaceAll(s, pat, "")`: scanning left to right, every
    non-overlapping occurrence of `pat` is removed.
   */
  function RemoveAll(s: string, pat: string): (r: string)
    requires |pat| > 0
    ensures |r| <= |s|
    ensures forall c :: c in r ==> c in s
    ensures |pat| == 1 ==> pat[0] !in r
    decreases |s|
  {
    if |s| == 0 then []
    else if HasPrefix(s, pat) then RemoveAll(s[|pat|..], pat)
    else [s[0]] + RemoveAll(s[1..], pat)
  }

  // ---------------------------------------------------------------------------
  // Facts about the operations above.

  /** `TrimSpace` leaves nothing exactly when the string is blank. */
  lemma TrimSpaceEmpty(s: string)
    ensures |TrimSpace(s)| == 0 <==> Blank(s)
  {
  }

  /** A string of which no character is white space is its own trim. */
  lemma TrimSpaceIdempotent(s: string)
    ensures TrimSpace(TrimSpace(s)) == TrimSpace(s)
  {
    var t := TrimSpace(s);
    assert TrimLeft(t) == t;
    assert TrimRight(t) == t;
  }

  /** When `s` does not start with a space, its trim is a prefix of it followed only by spaces. */
  lemma TrimSpaceFromNonSpace(s: string)
    requires |s| > 0 && !IsSpace(s[0])
    ensures var r := TrimSpace(s); r == s[..|r|] && forall k :: |r| <= k < |s| ==> IsSpace(s[k])
  {
    assert TrimLeft(s) == s;
  }

  /** Every character of a trimmed string comes from the original. */
  lemma TrimSpaceChar(s: string, k: nat)
    requires k < |TrimSpace(s)|
    ensures TrimSpace(s)[k] in s
  {
    var l := TrimLeft(s);
    assert TrimSpace(s)[k] == l[k];
    assert l[k] == s[|s| - |l| + k];
  }

  /** Trimming a string that starts with a word ending in a non-space keeps the word in front. */
  lemma TrimSpaceKeepsPrefix(p: string, w: string)
    requires |p| > 0 && !IsSpace(p[0]) && !IsSpace(p[|p| - 1])
    ensures HasPrefix(TrimSpace(p + w), p)
  {
    var s := p + w;
    assert s[0] == p[0];
    TrimSpaceFromNonSpace(s);
    var r := TrimSpace(s);
    assert s[|p| - 1] == p[|p| - 1];
    assert r[..|p|] == s[..|p|];
  }

  /** When some character of `p` never occurs in `s`, `p` does not occur in `s`. */
  lemma {:induction false} NotContainsByChar(s: string, p: string, c: char)
    requires c in p && c !in s
    ensures !Contains(s, p)
    decreases |s|
  {
    if |s| > 0 {
      assert forall x :: x in s[1..] ==> x in s;
      NotContainsByChar(s[1..], p, c);
    }
  }

  /** `Count` distributes over concatenation. */
  lemma {:induction false} CountCharAppend(a: string, b: string, c: char)
    ensures CountChar(a + b, c) == CountChar(a, c) + CountChar(b, c)
    decreases |a|
  {
    if |a| > 0 {
      assert (a + b)[1..] == a[1..] + b;
      CountCharAppend(a[1..], b, c);
    } else {
      assert a + b == b;
    }
  }
}
