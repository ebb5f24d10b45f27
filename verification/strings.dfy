/** The slice of Python's `str` behaviour that fence removal relies on:
    `strip()` with no argument, `startswith` and `endswith`. Strings are
    sequences of Unicode scalar values. A Python `str` may also hold lone
    surrogates, which a Dafny `char` cannot; none of them is whitespace or
    a backtick, so these operations treat them like any other letter. */
module Strings {

  /** The characters Python's `str.isspace()` accepts, and hence the ones a
      bare `str.strip()` removes: TAB, LF, VT, FF, CR, the four C0
      information separators, SPACE, NEXT LINE, NO-BREAK SPACE, OGHAM SPACE
      MARK, the spaces U+2000..U+200A, LINE SEPARATOR, PARAGRAPH SEPARATOR,
      NARROW NO-BREAK SPACE, MEDIUM MATHEMATICAL SPACE and IDEOGRAPHIC
      SPACE. */
  const Whitespace: set<char> :=
    {
      '\U{9}', '\U{A}', '\U{B}', '\U{C}', '\U{D}', '\U{1C}', '\U{1D}',
      '\U{1E}', '\U{1F}', '\U{20}', '\U{85}', '\U{A0}', '\U{1680}', '\U{2000}',
      '\U{2001}', '\U{2002}', '\U{2003}', '\U{2004}', '\U{2005}', '\U{2006}', '\U{2007}',
      '\U{2008}', '\U{2009}', '\U{200A}', '\U{2028}', '\U{2029}', '\U{202F}', '\U{205F}',
      '\U{3000}'
    }

  predicate IsSpace(c: char) {
    c in Whitespace
  }

  /** Every position of `s` from `lo` up to (not including) `hi` holds
      whitespace. */
  predicate SpaceBetween(s: string, lo: int, hi: int) {
    forall k | lo <= k < hi && 0 <= k < |s| :: IsSpace(s[k])
  }

  predicate AllSpace(s: string) {
    SpaceBetween(s, 0, |s|)
  }

  /** Neither end of `s` is whitespace: `s.strip() == s`. */
  predicate IsTrimmed(s: string) {
    s == [] || (!IsSpace(s[0]) && !IsSpace(s[|s| - 1]))
  }

  predicate StartsWith(s: string, prefix: string) {
    |prefix| <= |s| && s[..|prefix|] == prefix
  }

  predicate EndsWith(s: string, suffix: string) {
    |suffix| <= |s| && s[|s| - |suffix|..] == suffix
  }

  /** The `n` characters of `b` from position `i` (empty when out of range). */
  function Window(b: string, i: nat, n: nat): string {
    if i + n <= |b| then b[i..i + n] else []
  }

  /** `a` occurs in `b` as one contiguous run, as every slice of `b` does. */
  predicate IsInfix(a: string, b: string) {
    exists i: nat | i + |a| <= |b| :: Window(b, i, |a|) == a
  }

  /** The first position at or after `i` that is not whitespace, or the end
      of `s`: where `strip` starts keeping characters. */
  function SkipSpace(s: string, i: nat): (n: nat)
    requires i <= |s|
    ensures i <= n <= |s| && SpaceBetween(s, i, n)
    ensures n == |s| || !IsSpace(s[n])
    decreases |s| - i
  {
    if i < |s| && IsSpace(s[i]) then SkipSpace(s, i + 1) else i
  }

  /** The position just after the last non-whitespace character before `j`,
      or `lo` when there is none from `lo` on: where `strip` stops keeping
      characters. */
  function SkipSpaceBack(s: string, lo: nat, j: nat): (n: nat)
    requires lo <= j <= |s|
    ensures lo <= n <= j && SpaceBetween(s, n, j)
    ensures n == lo || !IsSpace(s[n - 1])
    decreases j
  {
    if lo < j && IsSpace(s[j - 1]) then SkipSpaceBack(s, lo, j - 1) else j
  }

  /** `s.strip()`: skip the whitespace at the left, then at the right, and
      keep what lies between. The result is trimmed and no longer than `s`;
      `StripShape` says that what was cut off is whitespace, and
      `StripUnique` that no other cut qualifies. */
  function Strip(s: string): (r: string)
    ensures IsTrimmed(r) && |r| <= |s|
  {
    var i := SkipSpace(s, 0);
    var j := SkipSpaceBack(s, i, |s|);
    assert i < j ==> s[i..j][0] == s[i] && s[i..j][j - i - 1] == s[j - 1];
    s[i..j]
  }

  /** `strip` keeps one contiguous run of `s` and cuts only whitespace on
      either side of it. */
  lemma StripShape(s: string)
    ensures exists i: nat | i + |Strip(s)| <= |s| ::
              Window(s, i, |Strip(s)|) == Strip(s)
              && SpaceBetween(s, 0, i) && SpaceBetween(s, i + |Strip(s)|, |s|)
  {
    var i := SkipSpace(s, 0);
    var j := SkipSpaceBack(s, i, |s|);
    assert Window(s, i, j - i) == Strip(s);
  }

  /** `strip` is characterised by what it keeps: any cut of `s` into
      whitespace, a trimmed middle and whitespace has that middle as its
      `strip()`. */
  lemma StripUnique(s: string, i: nat, j: nat)
    requires i <= j <= |s|
    requires SpaceBetween(s, 0, i) && SpaceBetween(s, j, |s|) && IsTrimmed(s[i..j])
    ensures Strip(s) == s[i..j]
  {
    if i == j {
      assert SpaceBetween(s, 0, |s|);
      SkipSpaceLands(s, 0, |s|);
    } else {
      assert s[i..j][0] == s[i] && s[i..j][j - i - 1] == s[j - 1];
      SkipSpaceLands(s, 0, i);
      SkipSpaceBackLands(s, i, |s|, j);
    }
  }

  lemma {:induction false} SkipSpaceLands(s: string, i: nat, k: nat)
    requires i <= k <= |s| && SpaceBetween(s, i, k)
    requires k == |s| || !IsSpace(s[k])
    ensures SkipSpace(s, i) == k
    decreases k - i
  {
    if i < k {
      SkipSpaceLands(s, i + 1, k);
    }
  }

  lemma {:induction false} SkipSpaceBackLands(s: string, lo: nat, j: nat, k: nat)
    requires lo <= k <= j <= |s| && SpaceBetween(s, k, j)
    requires k == lo || !IsSpace(s[k - 1])
    ensures SkipSpaceBack(s, lo, j) == k
    decreases j - k
  {
    if k < j {
      SkipSpaceBackLands(s, lo, j - 1, k);
    }
  }

  lemma StripTrimmed(s: string)
    requires IsTrimmed(s)
    ensures Strip(s) == s
  {
    assert s[0..|s|] == s;
    StripUnique(s, 0, |s|);
  }

  /** A character of a prefix is the character of the string. */
  lemma StartsWithAt(s: string, prefix: string, k: nat)
    requires k < |prefix|
    ensures StartsWith(s, prefix) ==> s[k] == prefix[k]
  {
    if StartsWith(s, prefix) { assert s[..|prefix|][k] == s[k]; }
  }

  lemma EndsWithAt(s: string, suffix: string, k: nat)
    requires k < |suffix|
    ensures EndsWith(s, suffix) ==> s[|s| - |suffix| + k] == suffix[k]
  {
    if EndsWith(s, suffix) { assert s[|s| - |suffix|..][k] == s[|s| - |suffix| + k]; }
  }

  lemma IsInfixRefl(s: string)
    ensures IsInfix(s, s)
  {
    assert Window(s, 0, |s|) == s;
  }

  lemma InfixTransitive(a: string, b: string, c: string)
    requires IsInfix(a, b) && IsInfix(b, c)
    ensures IsInfix(a, c)
  {
    var i: nat :| i + |a| <= |b| && Window(b, i, |a|) == a;
    var j: nat :| j + |b| <= |c| && Window(c, j, |b|) == b;
    assert b == c[j..j + |b|] && a == b[i..i + |a|];
    forall k | 0 <= k < |a| ensures a[k] == c[j + i + k] {
      assert a[k] == b[i + k];
    }
    assert Window(c, j + i, |a|) == a;
  }

  /** What `strip` leaves of a prefix or a suffix of `s` is a contiguous
      run of `s`. */
  lemma StripPrefixIsInfix(s: string, n: nat)
    requires n <= |s|
    ensures IsInfix(Strip(s[..n]), s)
  {
    var t := s[..n];
    assert Window(s, 0, n) == t;
    StripShape(t);
    InfixTransitive(Strip(t), t, s);
  }

  lemma StripSuffixIsInfix(s: string, n: nat)
    requires n <= |s|
    ensures IsInfix(Strip(s[n..]), s)
  {
    var t := s[n..];
    assert Window(s, n, |s| - n) == t;
    StripShape(t);
    InfixTransitive(Strip(t), t, s);
  }
}
