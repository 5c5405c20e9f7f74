/** Removal of terminal escape sequences: the `ansi_escape` pattern of
    main.py and the `sub('', ...)` call that deletes its matches.

    The pattern is ESC followed either by one byte of the 7-bit C1 "Fe" set
    (section 5.3 of ECMA-48, with `[` excluded) or by `[` and the rest of a
    control sequence of section 5.4 of ECMA-48: parameter bytes, then
    intermediate bytes, then one final byte.  The three byte classes of a
    control sequence are disjoint, so a greedy scan finds exactly the match
    the regular-expression engine finds; `EscapeLength` is that scan. */
module Escapes {
  import opened Wrappers
  import opened Subsequence

  const ESC: char := '\U{1B}'

  /** `[@-Z\\-_]`: 0x40-0x5A and 0x5C-0x5F; `[` (0x5B) is not in the class. */
  predicate IsFeByte(c: char) {
    ('@' <= c <= 'Z') || ('\\' <= c <= '_')
  }

  /** `[0-?]`: parameter bytes 0x30-0x3F. */
  predicate IsParameterByte(c: char) {
    '0' <= c <= '?'
  }

  /** `[ -/]`: intermediate bytes 0x20-0x2F. */
  predicate IsIntermediateByte(c: char) {
    ' ' <= c <= '/'
  }

  /** `[@-~]`: final bytes 0x40-0x7E. */
  predicate IsFinalByte(c: char) {
    '@' <= c <= '~'
  }

  // ---------------------------------------------------------------------
  // Reference definition: which strings the pattern matches as a whole.
  // ---------------------------------------------------------------------

  ghost predicate AllParameterBytes(u: string) {
    forall k :: 0 <= k < |u| ==> IsParameterByte(u[k])
  }

  ghost predicate AllIntermediateBytes(u: string) {
    forall k :: 0 <= k < |u| ==> IsIntermediateByte(u[k])
  }

  /** ESC + one Fe byte. */
  ghost predicate IsFeSequence(t: string) {
    |t| == 2 && t[0] == ESC && IsFeByte(t[1])
  }

  /** ESC `[` + parameter bytes + intermediate bytes + final byte, with `p`
      the index where the intermediate bytes begin. */
  ghost predicate IsControlSequenceSplit(t: string, p: int) {
    && |t| >= 3 && t[0] == ESC && t[1] == '['
    && 2 <= p <= |t| - 1
    && AllParameterBytes(t[2..p])
    && AllIntermediateBytes(t[p..|t| - 1])
    && IsFinalByte(t[|t| - 1])
  }

  ghost predicate IsControlSequence(t: string) {
    exists p :: IsControlSequenceSplit(t, p)
  }

  /** The strings the pattern matches: exactly the two forms. */
  ghost predicate IsEscapeSpan(t: string) {
    IsFeSequence(t) || IsControlSequence(t)
  }

  // ---------------------------------------------------------------------
  // The scanner.
  // ---------------------------------------------------------------------

  /** `[0-?]*` from index `j`: the first index at or after `j` that holds no
      parameter byte. */
  function SkipParameterBytes(s: string, j: nat): (k: nat)
    requires j <= |s|
    ensures j <= k <= |s|
    ensures forall m :: j <= m < k ==> IsParameterByte(s[m])
    ensures k == |s| || !IsParameterByte(s[k])
    decreases |s| - j
  {
    if j < |s| && IsParameterByte(s[j]) then SkipParameterBytes(s, j + 1) else j
  }

  /** `[ -/]*` from index `j`. */
  function SkipIntermediateBytes(s: string, j: nat): (k: nat)
    requires j <= |s|
    ensures j <= k <= |s|
    ensures forall m :: j <= m < k ==> IsIntermediateByte(s[m])
    ensures k == |s| || !IsIntermediateByte(s[k])
    decreases |s| - j
  {
    if j < |s| && IsIntermediateByte(s[j]) then SkipIntermediateBytes(s, j + 1) else j
  }

  /** The length of the match of the pattern at the start of `s`, or `None`
      when no match starts there. */
  function EscapeLength(s: string): (r: Option<nat>)
    ensures r.Some? ==> 2 <= r.value <= |s| && IsEscapeSpan(s[..r.value])
  {
    if |s| < 2 || s[0] != ESC then None
    else if IsFeByte(s[1]) then Some(2)
    else if s[1] != '[' then None
    else
      var p := SkipParameterBytes(s, 2);
      var q := SkipIntermediateBytes(s, p);
      if q < |s| && IsFinalByte(s[q]) then
        assert IsControlSequenceSplit(s[..q + 1], p);
        Some(q + 1)
      else None
  }

  /** Every prefix of `s` that the pattern matches is the one the scanner
      finds: the match at a position is unique and the scanner misses none. */
  lemma EscapeLengthComplete(s: string, n: nat)
    requires n <= |s| && IsEscapeSpan(s[..n])
    ensures EscapeLength(s) == Some(n)
  {
    var t := s[..n];
    if IsFeSequence(t) {
      assert s[0] == ESC && IsFeByte(s[1]);
    } else {
      var p' :| IsControlSequenceSplit(t, p');
      assert s[0] == ESC && s[1] == '[' && !IsFeByte(s[1]);
      var p := SkipParameterBytes(s, 2);
      assert forall m :: 2 <= m < p' ==> IsParameterByte(s[m]) by {
        forall m | 2 <= m < p' ensures IsParameterByte(s[m]) {
          assert s[m] == t[2..p'][m - 2];
        }
      }
      assert !IsParameterByte(s[p']) by {
        if p' < n - 1 {
          assert s[p'] == t[p'..n - 1][0];
        } else {
          assert s[p'] == t[n - 1];
        }
      }
      assert p == p';
      var q := SkipIntermediateBytes(s, p);
      assert forall m :: p <= m < n - 1 ==> IsIntermediateByte(s[m]) by {
        forall m | p <= m < n - 1 ensures IsIntermediateByte(s[m]) {
          assert s[m] == t[p..n - 1][m - p];
        }
      }
      assert s[n - 1] == t[n - 1];
      assert q == n - 1;
    }
  }

  /** The scanner agrees with the reference definition in both directions. */
  lemma EscapeLengthCorrect(s: string, n: nat)
    ensures EscapeLength(s) == Some(n) <==> (n <= |s| && IsEscapeSpan(s[..n]))
  {
    if n <= |s| && IsEscapeSpan(s[..n]) {
      EscapeLengthComplete(s, n);
    }
  }

  /** No prefix of `s` is a match exactly when the scanner reports none. */
  lemma EscapeLengthNone(s: string)
    ensures EscapeLength(s) == None <==> forall n :: 0 <= n <= |s| ==> !IsEscapeSpan(s[..n])
  {
    if EscapeLength(s) == None {
      forall n | 0 <= n <= |s| ensures !IsEscapeSpan(s[..n]) {
        if IsEscapeSpan(s[..n]) {
          EscapeLengthComplete(s, n);
        }
      }
    }
  }

  // ---------------------------------------------------------------------
  // `ansi_escape.sub('', s)`.
  // ---------------------------------------------------------------------

  /** Left to right: a match at the current position is deleted and the scan
      resumes after it; otherwise the character is kept and the scan moves
      on by one. */
  function StripEscapes(s: string): (r: string)
    ensures |r| <= |s|
    ensures IsSubsequence(r, s)
    ensures ESC !in s ==> r == s
    decreases |s|
  {
    if s == [] then []
    else match EscapeLength(s)
      case Some(n) =>
        var r := StripEscapes(s[n..]);
        SubsequenceOfSuffix(r, s, n);
        r
      case None =>
        var r' := StripEscapes(s[1..]);
        SubsequenceCons(s[0], r', s[1..]);
        assert [s[0]] + s[1..] == s;
        [s[0]] + r'
  }

  /** A match at the front is deleted as a whole. */
  lemma StripEscapesDropsSpan(t: string, rest: string)
    requires IsEscapeSpan(t)
    ensures StripEscapes(t + rest) == StripEscapes(rest)
  {
    assert (t + rest)[..|t|] == t;
    EscapeLengthComplete(t + rest, |t|);
    assert (t + rest)[|t|..] == rest;
  }

  /** A character that starts no match is kept, and that includes an ESC
      that begins neither form. */
  lemma StripEscapesKeepsUnmatched(s: string)
    requires s != []
    requires forall n :: 0 <= n <= |s| ==> !IsEscapeSpan(s[..n])
    ensures StripEscapes(s) == [s[0]] + StripEscapes(s[1..])
  {
  }

  /** Text without ESC in front of the rest passes through verbatim. */
  lemma {:induction false} StripEscapesPlainPrefix(x: string, rest: string)
    requires ESC !in x
    ensures StripEscapes(x + rest) == x + StripEscapes(rest)
    decreases |x|
  {
    if x == [] {
      assert x + rest == rest;
    } else {
      var s := x + rest;
      assert s[0] == x[0] && s[0] != ESC;
      assert s[1..] == x[1..] + rest;
      StripEscapesPlainPrefix(x[1..], rest);
      ConsAssociative(x[0], x[1..], StripEscapes(rest));
      assert [x[0]] + x[1..] == x;
    }
  }

  /** Text without ESC between two spans is all that is left of them. */
  lemma StripEscapesBetweenSpans(a: string, x: string, b: string)
    requires IsEscapeSpan(a) && ESC !in x && IsEscapeSpan(b)
    ensures StripEscapes(a + x + b) == x
  {
    assert a + x + b == a + (x + b);
    StripEscapesDropsSpan(a, x + b);
    StripEscapesPlainPrefix(x, b);
    assert b + [] == b;
    StripEscapesDropsSpan(b, []);
    assert x + [] == x;
  }

  /** The text is left unchanged exactly when no position of it starts a
      match. */
  lemma {:induction false} StripEscapesIdentity(s: string)
    ensures StripEscapes(s) == s <==> forall i :: 0 <= i < |s| ==> EscapeLength(s[i..]) == None
    decreases |s|
  {
    if s != [] {
      StripEscapesIdentity(s[1..]);
      if forall i :: 0 <= i < |s| ==> EscapeLength(s[i..]) == None {
        forall i | 0 <= i < |s[1..]| ensures EscapeLength(s[1..][i..]) == None {
          assert s[1..][i..] == s[i + 1..];
        }
        assert s[0..] == s;
        assert [s[0]] + s[1..] == s;
      } else {
        var i :| 0 <= i < |s| && EscapeLength(s[i..]) != None;
        StripEscapesShorter(s, i);
      }
    }
  }

  /** A match anywhere makes the output strictly shorter. */
  lemma {:induction false} StripEscapesShorter(s: string, i: nat)
    requires i < |s| && EscapeLength(s[i..]) != None
    ensures |StripEscapes(s)| < |s|
    decreases |s|
  {
    assert s[0..] == s;
    if EscapeLength(s) == None {
      assert i > 0;
      assert s[1..][i - 1..] == s[i..];
      StripEscapesShorter(s[1..], i - 1);
    }
  }
}
