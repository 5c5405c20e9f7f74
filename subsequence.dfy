/** Subsequences of strings: the relation "obtained by deleting characters",
    which every stage of the sanitiser satisfies. */
module Subsequence {

  /** `a` can be obtained from `b` by deleting zero or more characters. */
  predicate IsSubsequence(a: string, b: string)
    decreases |b|
  {
    if a == [] then true
    else if b == [] then false
    else (a[0] == b[0] && IsSubsequence(a[1..], b[1..])) || IsSubsequence(a, b[1..])
  }

  lemma {:induction false} SubsequenceLength(a: string, b: string)
    requires IsSubsequence(a, b)
    ensures |a| <= |b|
    decreases |b|
  {
    if a != [] {
      if a[0] == b[0] && IsSubsequence(a[1..], b[1..]) {
        SubsequenceLength(a[1..], b[1..]);
      } else {
        SubsequenceLength(a, b[1..]);
      }
    }
  }

  /** Deleting a prefix of the larger string keeps the relation. */
  lemma {:induction false} SubsequenceOfSuffix(a: string, b: string, k: nat)
    requires k <= |b|
    requires IsSubsequence(a, b[k..])
    ensures IsSubsequence(a, b)
    decreases k
  {
    if k > 0 {
      assert b[1..][k - 1..] == b[k..];
      SubsequenceOfSuffix(a, b[1..], k - 1);
    }
  }

  /** Keeping the first character of both strings keeps the relation. */
  lemma SubsequenceCons(c: char, a: string, b: string)
    requires IsSubsequence(a, b)
    ensures IsSubsequence([c] + a, [c] + b)
  {
  }

  lemma {:induction false} SubsequenceTransitive(a: string, b: string, c: string)
    requires IsSubsequence(a, b) && IsSubsequence(b, c)
    ensures IsSubsequence(a, c)
    decreases |c|
  {
    if a != [] {
      assert b != [] && c != [];
      if b[0] == c[0] && IsSubsequence(b[1..], c[1..]) {
        if a[0] == b[0] && IsSubsequence(a[1..], b[1..]) {
          SubsequenceTransitive(a[1..], b[1..], c[1..]);
        } else {
          SubsequenceTransitive(a, b[1..], c[1..]);
        }
      } else {
        SubsequenceTransitive(a, b, c[1..]);
      }
    }
  }

  /** A contiguous slice is a subsequence. */
  lemma {:induction false} SliceIsSubsequence(s: string, i: nat, j: nat)
    requires i <= j <= |s|
    ensures IsSubsequence(s[i..j], s)
  {
    PrefixIsSubsequence(s[i..], j - i);
    assert s[i..][..j - i] == s[i..j];
    SubsequenceOfSuffix(s[i..j], s, i);
  }

  lemma {:induction false} PrefixIsSubsequence(s: string, n: nat)
    requires n <= |s|
    ensures IsSubsequence(s[..n], s)
    decreases n
  {
    if n > 0 {
      PrefixIsSubsequence(s[1..], n - 1);
      assert s[1..][..n - 1] == s[..n][1..];
    }
  }

  /** Every character of a subsequence occurs in the larger string. */
  lemma {:induction false} SubsequenceElements(a: string, b: string)
    requires IsSubsequence(a, b)
    ensures forall x :: x in a ==> x in b
    decreases |b|
  {
    if a != [] {
      if a[0] == b[0] && IsSubsequence(a[1..], b[1..]) {
        SubsequenceElements(a[1..], b[1..]);
        forall x | x in a ensures x in b {
          if x != a[0] {
            assert x in a[1..];
          }
        }
      } else {
        SubsequenceElements(a, b[1..]);
      }
    }
  }

  // Two facts about sequence concatenation.

  lemma PrefixSplit(s: string, k: nat)
    requires 0 < k <= |s|
    ensures s[..k] == [s[0]] + s[1..][..k - 1]
  {
  }

  lemma ConsAssociative(c: char, a: string, b: string)
    ensures [c] + (a + b) == ([c] + a) + b
  {
  }
}
