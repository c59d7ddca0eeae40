/** Whitespace and `String.prototype.trim` as ECMAScript defines them. */
module Text {

  /** The ECMAScript WhiteSpace and LineTerminator code points: tab, vertical tab,
      form feed, space, no-break space, byte-order mark, the other Zs space
      separators, line feed, carriage return, line separator and paragraph
      separator. `trim` strips exactly these, and the regular-expression class
      `\s` matches exactly these. */
  predicate IsSpace(c: char) {
    || c == '\t' || c == '\n' || c == '\U{000B}' || c == '\U{000C}' || c == '\r'
    || c == ' ' || c == '\U{00A0}' || c == '\U{1680}'
    || ('\U{2000}' <= c <= '\U{200A}')
    || c == '\U{2028}' || c == '\U{2029}' || c == '\U{202F}' || c == '\U{205F}'
    || c == '\U{3000}' || c == '\U{FEFF}'
  }

  /** Every character of `s` at a position in `[lo, hi)` is whitespace. */
  predicate SpaceBetween(s: string, lo: int, hi: int)
    requires 0 <= lo <= hi <= |s|
  {
    forall k :: lo <= k < hi ==> IsSpace(s[k])
  }

  predicate AllSpace(s: string) {
    SpaceBetween(s, 0, |s|)
  }

  /** Neither end of `s` is whitespace (vacuously so for the empty string). */
  predicate Tidy(s: string) {
    s == [] || (!IsSpace(s[0]) && !IsSpace(s[|s| - 1]))
  }

  /** `r` sits at offset `i` inside `s`, and everything of `s` around it is whitespace. */
  ghost predicate FramedBySpace(s: string, r: string, i: int) {
    && 0 <= i && i + |r| <= |s|
    && s[i..i + |r|] == r
    && SpaceBetween(s, 0, i)
    && SpaceBetween(s, i + |r|, |s|)
  }

  /** The first position at or after `i` that is not whitespace (or `|s|`); all it
      skips is whitespace. */
  function SkipSpace(s: string, i: int): (j: int)
    requires 0 <= i <= |s|
    ensures i <= j <= |s|
    ensures SpaceBetween(s, i, j)
    ensures j == |s| || !IsSpace(s[j])
    decreases |s| - i
  {
    if i < |s| && IsSpace(s[i]) then SkipSpace(s, i + 1) else i
  }

  /** Walking back from `j` (but not below `lo`), the position just after the last
      character that is not whitespace; all it skips is whitespace. */
  function SkipSpaceBack(s: string, lo: int, j: int): (i: int)
    requires 0 <= lo <= j <= |s|
    ensures lo <= i <= j
    ensures SpaceBetween(s, i, j)
    ensures i == lo || !IsSpace(s[i - 1])
    decreases j
  {
    if lo < j && IsSpace(s[j - 1]) then SkipSpaceBack(s, lo, j - 1) else j
  }

  /** Where the kept part of `s` starts: after its leading whitespace. */
  function TrimLo(s: string): nat
    ensures TrimLo(s) <= |s|
  {
    SkipSpace(s, 0)
  }

  /** Where the kept part of `s` ends: before its trailing whitespace. */
  function TrimHi(s: string): nat
    ensures TrimLo(s) <= TrimHi(s) <= |s|
  {
    SkipSpaceBack(s, TrimLo(s), |s|)
  }

  /** `String.prototype.trim`: the result has no whitespace at either end and is
      empty exactly when `s` is all whitespace. */
  function Trim(s: string): (r: string)
    ensures Tidy(r)
    ensures r == [] <==> AllSpace(s)
  {
    s[TrimLo(s)..TrimHi(s)]
  }

  /** What `Trim` keeps sits inside `s` between two whitespace-only margins. */
  lemma TrimFramed(s: string)
    ensures FramedBySpace(s, Trim(s), TrimLo(s))
  {
  }

  /** A whitespace-framed string with no whitespace at either end is what `Trim` keeps. */
  lemma TrimUnique(s: string, r: string, i: int)
    requires Tidy(r) && FramedBySpace(s, r, i)
    ensures r == Trim(s)
  {
    if r == [] {
      assert AllSpace(s);
    } else {
      var lo, hi := TrimLo(s), TrimHi(s);
      var j := i + |r|;
      assert s[i] == r[0] && s[j - 1] == r[|r| - 1];
      assert i == lo;
      assert j == hi;
    }
  }

  /** `Trim(s)` is the one string with no whitespace at either end that `s` holds
      between two whitespace-only margins. */
  lemma TrimCharacterized(s: string, r: string)
    ensures r == Trim(s) <==> Tidy(r) && exists i :: FramedBySpace(s, r, i)
  {
    if r == Trim(s) {
      TrimFramed(s);
    }
    if Tidy(r) && exists i :: FramedBySpace(s, r, i) {
      var i :| FramedBySpace(s, r, i);
      TrimUnique(s, r, i);
    }
  }

  /** A string with no whitespace at either end is its own trim. */
  lemma TrimOfTidy(s: string)
    requires Tidy(s)
    ensures Trim(s) == s
  {
    assert FramedBySpace(s, s, 0) by {
      assert s[0..|s|] == s;
    }
    TrimUnique(s, s, 0);
  }

  /** Trimming twice is trimming once. */
  lemma TrimIdempotent(s: string)
    ensures Trim(Trim(s)) == Trim(s)
  {
    TrimOfTidy(Trim(s));
  }
}
