/** Removal of the device shell's prompt: `replace("uart:~$ ", "")` in
    main.py.  With an empty replacement Python's `str.replace` deletes every
    occurrence found scanning left to right, each search resuming right after
    the occurrence just deleted; `DeleteAll` is that scan for any non-empty
    pattern, and `RemovePrompt` applies it to the prompt. */
module Prompt {
  import opened Subsequence

  const PROMPT: string := "uart:~$ "

  /** An occurrence of `w` starts at index `i` of `s`. */
  predicate OccursAt(s: string, w: string, i: nat) {
    i + |w| <= |s| && s[i..i + |w|] == w
  }

  ghost predicate Contains(s: string, w: string) {
    exists i: nat :: OccursAt(s, w, i)
  }

  /** `s.replace(w, "")` for a non-empty `w`. */
  function DeleteAll(s: string, w: string): (r: string)
    requires w != []
    ensures |r| <= |s|
    ensures IsSubsequence(r, s)
    decreases |s|
  {
    if OccursAt(s, w, 0) then
      var r := DeleteAll(s[|w|..], w);
      SubsequenceOfSuffix(r, s, |w|);
      r
    else if s == [] then []
    else
      var r' := DeleteAll(s[1..], w);
      SubsequenceCons(s[0], r', s[1..]);
      assert [s[0]] + s[1..] == s;
      [s[0]] + r'
  }

  /** One step of the scan past a character that starts no occurrence. */
  lemma DeleteAllKeep(s: string, w: string)
    requires w != [] && s != [] && !OccursAt(s, w, 0)
    ensures DeleteAll(s, w) == [s[0]] + DeleteAll(s[1..], w)
  {
  }

  /** Occurrences move one place left when the first character is dropped. */
  lemma OccursAtShift(s: string, w: string, j: nat)
    requires s != []
    ensures OccursAt(s, w, j + 1) <==> OccursAt(s[1..], w, j)
  {
  }

  /** The first occurrence is found: the text before it is kept verbatim, the
      occurrence is deleted, and the search resumes right after it. */
  lemma {:induction false} DeleteAllFirstOccurrence(s: string, w: string, k: nat)
    requires w != []
    requires OccursAt(s, w, k)
    requires forall j: nat :: j < k ==> !OccursAt(s, w, j)
    ensures DeleteAll(s, w) == s[..k] + DeleteAll(s[k + |w|..], w)
    decreases k
  {
    if k == 0 {
      assert s[..0] == [];
    } else {
      var t := s[1..];
      assert !OccursAt(s, w, 0);
      DeleteAllKeep(s, w);
      OccursAtShift(s, w, k - 1);
      forall j: nat | j < k - 1 ensures !OccursAt(t, w, j) {
        OccursAtShift(s, w, j);
      }
      DeleteAllFirstOccurrence(t, w, k - 1);
      var rest := s[k + |w|..];
      assert t[k - 1 + |w|..] == rest;
      var tail := DeleteAll(rest, w);
      assert DeleteAll(t, w) == t[..k - 1] + tail;
      PrefixSplit(s, k);
      ConsAssociative(s[0], t[..k - 1], tail);
    }
  }

  /** Any occurrence makes the text strictly shorter. */
  lemma {:induction false} DeleteAllShorter(s: string, w: string, i: nat)
    requires w != []
    requires OccursAt(s, w, i)
    ensures |DeleteAll(s, w)| < |s|
    decreases |s|
  {
    if !OccursAt(s, w, 0) {
      assert i > 0;
      OccursAtShift(s, w, i - 1);
      DeleteAllShorter(s[1..], w, i - 1);
    }
  }

  /** The text is left unchanged exactly when it holds no occurrence. */
  lemma {:induction false} DeleteAllIdentity(s: string, w: string)
    requires w != []
    ensures DeleteAll(s, w) == s <==> !Contains(s, w)
    decreases |s|
  {
    if Contains(s, w) {
      var i: nat :| OccursAt(s, w, i);
      DeleteAllShorter(s, w, i);
    } else if s != [] {
      assert !OccursAt(s, w, 0);
      forall i: nat | OccursAt(s[1..], w, i) ensures false {
        OccursAtShift(s, w, i);
      }
      DeleteAllIdentity(s[1..], w);
      assert [s[0]] + s[1..] == s;
    }
  }

  /** `replace("uart:~$ ", "")`. */
  function RemovePrompt(s: string): (r: string)
    ensures |r| <= |s|
    ensures IsSubsequence(r, s)
  {
    DeleteAll(s, PROMPT)
  }
}
