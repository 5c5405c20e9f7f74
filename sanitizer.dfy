/** `clean_log_line` of main.py: escape removal, prompt removal and
    whitespace trimming, with `None` for input that is empty before or after
    cleaning. */
module Sanitizer {
  import opened Wrappers
  import opened Subsequence
  import opened Escapes
  import opened Prompt
  import opened Whitespace

  /** The text after the first two stages, before trimming. */
  function Unstripped(line: string): (u: string)
    ensures |u| <= |line|
    ensures IsSubsequence(u, line)
  {
    var e := StripEscapes(line);
    var p := RemovePrompt(e);
    SubsequenceTransitive(p, e, line);
    p
  }

  /** `clean_log_line`: `None` for an empty line and for a line of which only
      whitespace is left once escapes and prompts are gone; otherwise that
      text, trimmed. */
  function CleanLogLine(line: string): (r: Option<string>)
    ensures line == [] ==> r == None
    ensures r.Some? ==> r.value == Strip(Unstripped(line))
    ensures r.Some? ==> r.value != [] && IsTrimmed(r.value)
    ensures r.Some? ==> IsSubsequence(r.value, line) && |r.value| <= |line|
    ensures r.None? <==> line == [] || AllSpace(Unstripped(line))
  {
    if line == [] then None
    else
      var u := Unstripped(line);
      var t := Strip(u);
      StripEmpty(u);
      if t == [] then None
      else
        var i := LeadingCount(u, IsSpace);
        SliceIsSubsequence(u, i, i + |t|);
        SubsequenceTransitive(t, u, line);
        SubsequenceLength(t, line);
        Some(t)
  }

  /** When escape and prompt removal leave non-empty text with no whitespace
      at either end, that text is the cleaned line. */
  lemma CleanLogLineOfTrimmed(line: string)
    requires line != []
    requires Unstripped(line) != [] && IsTrimmed(Unstripped(line))
    ensures CleanLogLine(line) == Some(Unstripped(line))
  {
    StripTrimmed(Unstripped(line));
  }

  /** A line that is the prompt followed by plain text with no whitespace at
      its ends yields that text. */
  lemma PromptedPlainLine(line: string)
    requires OccursAt(line, PROMPT, 0) && ESC !in line
    requires line[|PROMPT|..] != [] && IsTrimmed(line[|PROMPT|..])
    requires !Contains(line[|PROMPT|..], PROMPT)
    ensures CleanLogLine(line) == Some(line[|PROMPT|..])
  {
    DeleteAllFirstOccurrence(line, PROMPT, 0);
    DeleteAllIdentity(line[|PROMPT|..], PROMPT);
    CleanLogLineOfTrimmed(line);
  }

  /** Input made only of whitespace yields no line. */
  lemma WhitespaceOnlyIsNone(line: string)
    requires AllSpace(line)
    ensures CleanLogLine(line) == None
  {
    var u := Unstripped(line);
    SubsequenceElements(u, line);
    forall k | 0 <= k < |u| ensures IsSpace(u[k]) {
      assert u[k] in u;
      var m :| 0 <= m < |line| && line[m] == u[k];
    }
  }

  /** Text with no escape character, no prompt and no whitespace at either
      end comes back unchanged. */
  lemma PlainLinePreserved(line: string)
    requires line != [] && ESC !in line && !Contains(line, PROMPT) && IsTrimmed(line)
    ensures CleanLogLine(line) == Some(line)
  {
    DeleteAllIdentity(line, PROMPT);
    StripTrimmed(line);
    StripEmpty(line);
    assert !IsSpace(line[0]);
  }
}
