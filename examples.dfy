/** The sanitiser's result on concrete lines.  The longer examples are proved
    on a parameter equal to the line (which keeps the verifier from unfolding
    the whole pipeline on a literal) and then stated on the literal itself. */
module SanitizerExamples {
  import opened Wrappers
  import opened Escapes
  import opened Prompt
  import opened Whitespace
  import opened Sanitizer

  /** A line printed after the device's shell prompt loses the prompt. */
  lemma PromptExample()
    ensures CleanLogLine("uart:~$ hello") == Some("hello")
  {
    var line := "uart:~$ hello";
    assert line[|PROMPT|..] == "hello";
    PromptedPlainLine(line);
  }

  lemma GreenIsSpan()
    ensures IsEscapeSpan("\U{1B}[32m")
  {
    assert IsControlSequenceSplit("\U{1B}[32m", 4);
  }

  lemma ResetIsSpan()
    ensures IsEscapeSpan("\U{1B}[0m")
  {
    assert IsControlSequenceSplit("\U{1B}[0m", 3);
  }

  lemma ColourEscapesRemoved(line: string)
    requires line == "\U{1B}[32mOK\U{1B}[0m"
    ensures StripEscapes(line) == "OK"
  {
    assert line[..5] == "\U{1B}[32m" && line[5..7] == "OK" && line[7..] == "\U{1B}[0m";
    GreenIsSpan();
    ResetIsSpan();
    assert line == line[..5] + line[5..7] + line[7..];
    StripEscapesBetweenSpans(line[..5], line[5..7], line[7..]);
  }

  lemma ColourExampleAt(line: string)
    requires line == "\U{1B}[32mOK\U{1B}[0m"
    ensures CleanLogLine(line) == Some("OK")
  {
    ColourEscapesRemoved(line);
    DeleteAllIdentity("OK", PROMPT);
    CleanLogLineOfTrimmed(line);
  }

  /** Colour codes around a word are removed. */
  lemma ColourExample()
    ensures CleanLogLine("\U{1B}[32mOK\U{1B}[0m") == Some("OK")
  {
    ColourExampleAt("\U{1B}[32mOK\U{1B}[0m");
  }

  // ---------------------------------------------------------------------
  // Deleting a match can bring a new match together, so cleaning a cleaned
  // line again may change it: the sanitiser is not idempotent.
  // ---------------------------------------------------------------------

  lemma ExposedEscapeAt(line: string)
    requires line == "\U{1B}\U{1B}[mA"
    ensures CleanLogLine(line) == Some("\U{1B}A")
  {
    var reset := "\U{1B}[m";
    assert IsControlSequenceSplit(reset, 2);
    assert line[1..] == reset + "A";
    StripEscapesDropsSpan(reset, "A");
    assert StripEscapes(line) == "\U{1B}A";
    DeleteAllIdentity("\U{1B}A", PROMPT);
    CleanLogLineOfTrimmed(line);
  }

  lemma ExposedEscapeSecondPassAt(line: string)
    requires line == "\U{1B}A"
    ensures CleanLogLine(line) == None
  {
  }

  /** An escape character kept in front of a deleted control sequence forms
      an "ESC Fe" pair with the character after it. */
  lemma EscapeRemovalNotIdempotent()
    ensures CleanLogLine("\U{1B}\U{1B}[mA") == Some("\U{1B}A")
    ensures CleanLogLine("\U{1B}A") == None
  {
    ExposedEscapeAt("\U{1B}\U{1B}[mA");
    ExposedEscapeSecondPassAt("\U{1B}A");
  }

  lemma ExposedPromptRemoved(line: string)
    requires line == "uart:uart:~$ ~$ x"
    ensures RemovePrompt(line) == "uart:~$ x"
  {
    assert OccursAt(line, PROMPT, 5);
    forall j: nat | j < 5 ensures !OccursAt(line, PROMPT, j) {
      assert line[j + 5] != PROMPT[5];
    }
    DeleteAllFirstOccurrence(line, PROMPT, 5);
    var tail := line[5 + |PROMPT|..];
    DeleteAllIdentity(tail, PROMPT);
    assert line[..5] + tail == "uart:~$ x";
  }

  lemma ExposedPromptAt(line: string)
    requires line == "uart:uart:~$ ~$ x"
    ensures CleanLogLine(line) == Some("uart:~$ x")
  {
    assert ESC !in line;
    ExposedPromptRemoved(line);
    CleanLogLineOfTrimmed(line);
  }

  lemma ExposedPromptSecondPass()
    ensures CleanLogLine("uart:~$ x") == Some("x")
  {
    var line := "uart:~$ x";
    assert line[|PROMPT|..] == "x";
    PromptedPlainLine(line);
  }

  /** Deleting a prompt from inside another joins its two halves into a new
      prompt, which only a second pass deletes. */
  lemma PromptRemovalNotIdempotent()
    ensures CleanLogLine("uart:uart:~$ ~$ x") == Some("uart:~$ x")
    ensures CleanLogLine("uart:~$ x") == Some("x")
  {
    ExposedPromptAt("uart:uart:~$ ~$ x");
    ExposedPromptSecondPass();
  }
}
