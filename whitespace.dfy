/** Python's `str.strip()` with no argument, as used in main.py.  The
    trimming itself is written for any character class `sp` (so proofs about
    it do not depend on which characters are whitespace); `Strip` applies it
    to `IsSpace`. */
module Whitespace {

  /** The characters for which Python's `str.isspace` holds.  Besides the
      ASCII ones (TAB, LF, VT, FF, CR, the four separators 0x1C-0x1F and
      SPACE) this includes the Unicode spaces: NEL, NO-BREAK SPACE, OGHAM
      SPACE MARK, U+2000-U+200A, LINE and PARAGRAPH SEPARATOR, NARROW
      NO-BREAK SPACE, MEDIUM MATHEMATICAL SPACE and IDEOGRAPHIC SPACE. */
  predicate IsSpace(c: char) {
    || ('\t' <= c <= '\r')
    || ('\U{1C}' <= c <= ' ')
    || c == '\U{85}'
    || c == '\U{A0}'
    || c == '\U{1680}'
    || ('\U{2000}' <= c <= '\U{200A}')
    || ('\U{2028}' <= c <= '\U{2029}')
    || c == '\U{202F}'
    || c == '\U{205F}'
    || c == '\U{3000}'
  }

  predicate AllIn(s: string, sp: char -> bool) {
    forall k :: 0 <= k < |s| ==> sp(s[k])
  }

  /** Neither end of `s` is in the class (vacuously true of the empty string). */
  predicate IsTrimmedOf(s: string, sp: char -> bool) {
    s == [] || (!sp(s[0]) && !sp(s[|s| - 1]))
  }

  /** `s[i..j]` is what remains once the characters of the class at both ends
      of `s` are cut away: everything outside the slice is in the class and
      the slice itself has no such character at either end. */
  ghost predicate IsStripOf(s: string, i: nat, j: nat, sp: char -> bool) {
    && i <= j <= |s|
    && AllIn(s[..i], sp)
    && AllIn(s[j..], sp)
    && IsTrimmedOf(s[i..j], sp)
  }

  /** The number of class characters at the start of `s`. */
  function LeadingCount(s: string, sp: char -> bool): (n: nat)
    ensures n <= |s|
    ensures forall k :: 0 <= k < n ==> sp(s[k])
    ensures n == |s| || !sp(s[n])
  {
    if s == [] || !sp(s[0]) then 0 else 1 + LeadingCount(s[1..], sp)
  }

  /** The number of class characters at the end of `s`. */
  function TrailingCount(s: string, sp: char -> bool): (n: nat)
    ensures n <= |s|
    ensures forall k :: |s| - n <= k < |s| ==> sp(s[k])
    ensures n == |s| || !sp(s[|s| - 1 - n])
  {
    if s == [] || !sp(s[|s| - 1]) then 0 else 1 + TrailingCount(s[..|s| - 1], sp)
  }

  /** The end of the slice that is kept: the trailing characters are counted
      on what follows the leading ones. */
  function StripEnd(s: string, sp: char -> bool): (j: nat)
    ensures LeadingCount(s, sp) <= j <= |s|
  {
    |s| - TrailingCount(s[LeadingCount(s, sp)..], sp)
  }

  lemma StripBounds(s: string, sp: char -> bool)
    ensures IsStripOf(s, LeadingCount(s, sp), StripEnd(s, sp), sp)
  {
  }

  /** `s.strip(chars)` for the class `sp`: the slice of `s` that `IsStripOf`
      describes, starting after the leading class characters. */
  function StripBy(s: string, sp: char -> bool): (r: string)
    ensures LeadingCount(s, sp) + |r| <= |s|
    ensures IsStripOf(s, LeadingCount(s, sp), LeadingCount(s, sp) + |r|, sp)
    ensures r == s[LeadingCount(s, sp)..LeadingCount(s, sp) + |r|]
  {
    StripBounds(s, sp);
    s[LeadingCount(s, sp)..StripEnd(s, sp)]
  }

  /** Any slice that `IsStripOf` describes is the one `StripBy` returns, so
      `StripBy` is the only function meeting its contract. */
  lemma StripByUnique(s: string, i: nat, j: nat, sp: char -> bool)
    requires IsStripOf(s, i, j, sp)
    ensures StripBy(s, sp) == s[i..j]
  {
  }

  /** Stripping yields the empty string exactly when every character is in
      the class. */
  lemma StripByEmpty(s: string, sp: char -> bool)
    ensures StripBy(s, sp) == [] <==> AllIn(s, sp)
  {
  }

  /** Text with no class character at either end is returned unchanged. */
  lemma StripByTrimmed(s: string, sp: char -> bool)
    requires IsTrimmedOf(s, sp)
    ensures StripBy(s, sp) == s
  {
  }

  // ---------------------------------------------------------------------
  // `str.strip()`: the class is Python's whitespace.
  // ---------------------------------------------------------------------

  predicate AllSpace(s: string) {
    AllIn(s, IsSpace)
  }

  predicate IsTrimmed(s: string) {
    IsTrimmedOf(s, IsSpace)
  }

  function Strip(s: string): (r: string)
    ensures IsStripOf(s, LeadingCount(s, IsSpace), LeadingCount(s, IsSpace) + |r|, IsSpace)
    ensures r == s[LeadingCount(s, IsSpace)..LeadingCount(s, IsSpace) + |r|]
  {
    StripBy(s, IsSpace)
  }

  // The three lemmas below are the generic ones for `IsSpace`, stated on
  // `Strip` so that callers need not mention the character class.

  lemma StripUnique(s: string, i: nat, j: nat)
    requires IsStripOf(s, i, j, IsSpace)
    ensures Strip(s) == s[i..j]
  {
  }

  lemma StripEmpty(s: string)
    ensures Strip(s) == [] <==> AllSpace(s)
  {
  }

  lemma StripTrimmed(s: string)
    requires IsTrimmed(s)
    ensures Strip(s) == s
  {
  }
}
