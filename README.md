# Heimdall serial bridge: the log-line sanitiser

Heimdall bridges a serial device to a browser over a WebSocket. Every line read
from the device goes through `clean_log_line` in `main.py` before it is sent
on. That function removes terminal escape sequences, then removes the prompt
`uart:~$ ` of the device's shell, then trims whitespace. It returns no line
when the input was empty or nothing but whitespace is left. This project models
that sanitiser as pure Dafny functions and proves what each stage does. It also
models one pass of the command loop, which acknowledges a command and writes
it to the port, and one read of the serial port.

Modules, leaves first:

- `Wrappers` (`wrappers.dfy`): `Option`, standing for Python's `None`/value.
- `Subsequence` (`subsequence.dfy`): the "obtained by deleting characters" relation and its laws.
- `Escapes` (`escapes.dfy`): the `ansi_escape` pattern, a scanner for it, and `ansi_escape.sub('', ...)`.
- `Prompt` (`prompt.dfy`): `str.replace(w, "")` for a non-empty `w`, and its use on the prompt.
- `Whitespace` (`whitespace.dfy`): `str.isspace` and `str.strip()`.
- `Sanitizer` (`sanitizer.dfy`): `clean_log_line`.
- `SanitizerExamples` (`examples.dfy`): the sanitiser's result on concrete lines, including the two that show the sanitiser is not idempotent.
- `Bridge` (`bridge.dfy`): the serial handle, one command-loop step, one read.

Strings are `seq<char>`. A Dafny `char` is a Unicode scalar value, so unlike a
Python `str` it cannot hold a lone surrogate (U+D800-U+DFFF). The only text
the sanitiser receives comes from `decode('utf-8', errors='replace')`
(main.py:41), which never yields one, so nothing is lost. The escape pattern is ESC followed either by one byte in
0x40-0x5A or 0x5C-0x5F (the 7-bit "Fe" forms of section 5.3 of ECMA-48,
without `[`) or by a control sequence of section 5.4 of ECMA-48: `[`, then
parameter bytes 0x30-0x3F, then intermediate bytes 0x20-0x2F, then one
final byte 0x40-0x7E. These three classes do not overlap, so the greedy scan
`EscapeLength` finds exactly the match the regular-expression engine finds.
`EscapeLengthCorrect` proves that the scan agrees with the reference
definition `IsEscapeSpan` in both directions. `IsSpace` holds for every
character for which Python's `str.isspace` holds: the ASCII whitespace
characters and the Unicode ones (NEL, NO-BREAK SPACE, U+2000-U+200A,
IDEOGRAPHIC SPACE, ...).

Two facts about the code that the model states:

- The acknowledgment is `[SYSTEM] Sending command to PFR: <command>` (main.py:84).
- The sanitiser is not idempotent. Deleting a match can join its neighbours into a new match, and a kept ESC can be left behind.
  `EscapeRemovalNotIdempotent` and `PromptRemovalNotIdempotent` prove this on concrete lines.
  The model does not claim idempotence, and it does not claim that no escape sequence survives.

## Model

| member | source | states |
|---|---|---|
| `Escapes.IsEscapeSpan` | main.py:10 | the reference definition of what the pattern matches: ESC and one Fe byte, or ESC `[`, parameter bytes, intermediate bytes and one final byte |
| `Escapes.SkipParameterBytes` | main.py:10 | `[0-?]*`: the result is the first index from the start point that holds no parameter byte; every byte skipped is a parameter byte |
| `Escapes.SkipIntermediateBytes` | main.py:10 | `[ -/]*`: the result is the first index that holds no intermediate byte; every byte skipped is an intermediate byte |
| `Escapes.EscapeLength` | main.py:10 | a reported match has length at least 2, fits in the text, and is one of the two forms (ESC Fe, or ESC `[` params intermediates final) |
| `Escapes.EscapeLengthComplete` | main.py:10 | every prefix that has one of the two forms is the match the scanner reports, so a match at a position is unique and none is missed |
| `Escapes.EscapeLengthCorrect` | main.py:10 | the scanner reports length n exactly when the first n characters have one of the two forms |
| `Escapes.EscapeLengthNone` | main.py:10 | the scanner reports no match exactly when no prefix of the text has either form |
| `Escapes.StripEscapes` | main.py:25 | escape removal only deletes: its output is a subsequence of its input, never longer, and equals the input when the input holds no ESC |
| `Escapes.StripEscapesDropsSpan` | main.py:25 | a span of either form at the front is deleted as a whole and the scan resumes right after it |
| `Escapes.StripEscapesKeepsUnmatched` | main.py:25 | a character that starts no span is kept and the scan moves on by one; this covers an ESC that begins neither form |
| `Escapes.StripEscapesPlainPrefix` | main.py:25 | text without ESC in front of the rest passes through verbatim |
| `Escapes.StripEscapesBetweenSpans` | main.py:25 | text without ESC between two spans is all that is left of them |
| `Escapes.StripEscapesIdentity` | main.py:25 | the text is unchanged exactly when no position of it starts a match |
| `Escapes.StripEscapesShorter` | main.py:25 | a match at any position makes the output strictly shorter |
| `Prompt.DeleteAll` | main.py:27 | `replace(w, "")` only deletes: subsequence of the input and never longer |
| `Prompt.DeleteAllFirstOccurrence` | main.py:27 | the first occurrence is found: the text before it is kept verbatim, it is deleted, and the search resumes right after it (left to right, non-overlapping) |
| `Prompt.DeleteAllShorter` | main.py:27 | any occurrence makes the output strictly shorter |
| `Prompt.DeleteAllIdentity` | main.py:27 | the text is unchanged exactly when it contains no occurrence |
| `Prompt.RemovePrompt` | main.py:27 | removing `uart:~$ ` only deletes characters and never lengthens the text |
| `Whitespace.IsSpace` | main.py:29 | the characters `strip()` removes: exactly those for which Python's `str.isspace` holds, ASCII and Unicode |
| `Whitespace.LeadingCount` | main.py:29 | the length of the longest prefix made of class characters |
| `Whitespace.TrailingCount` | main.py:29 | the length of the longest suffix made of class characters |
| `Whitespace.StripBounds` | main.py:29 | the slice between the leading and trailing class characters has everything outside it in the class and no class character at either end |
| `Whitespace.StripBy` | main.py:29 | stripping returns a slice of the input such that everything outside it is in the class and neither of its ends is |
| `Whitespace.StripByUnique` | main.py:29 | any slice with that property is the one stripping returns |
| `Whitespace.StripByEmpty` | main.py:29 | stripping gives the empty string exactly when every character is in the class |
| `Whitespace.StripByTrimmed` | main.py:29 | text with no class character at either end is returned unchanged |
| `Whitespace.Strip` | main.py:29 | `strip()` returns the slice left once Python whitespace is cut from both ends, with no whitespace at either end of it |
| `Whitespace.StripUnique` | main.py:29 | any slice with whitespace only outside it and at neither of its ends is `strip()`'s result |
| `Whitespace.StripEmpty` | main.py:29 | `strip()` gives the empty string exactly on whitespace-only text |
| `Whitespace.StripTrimmed` | main.py:29 | `strip()` returns text without whitespace at its ends unchanged |
| `Sanitizer.Unstripped` | main.py:25-27 | escape removal followed by prompt removal gives a subsequence of the line, never longer |
| `Sanitizer.CleanLogLine` | main.py:20-34 | empty input gives `None`; `None` exactly when the input is empty or only whitespace is left after escape and prompt removal; a returned line is exactly `strip()` of the text left after escape and prompt removal, so it is non-empty, has no whitespace at either end, and is a subsequence of the input |
| `Sanitizer.CleanLogLineOfTrimmed` | main.py:29-34 | when escape and prompt removal leave non-empty text with no whitespace at its ends, that text is returned |
| `Sanitizer.PromptedPlainLine` | main.py:20-34 | a line made of the prompt followed by plain text with no whitespace at its ends yields that text |
| `Sanitizer.WhitespaceOnlyIsNone` | main.py:29-32 | a line made only of whitespace gives `None` |
| `Sanitizer.PlainLinePreserved` | main.py:20-34 | a non-empty line with no ESC, no prompt and no whitespace at its ends is returned unchanged |
| `SanitizerExamples.PromptExample` | main.py:27 | `clean_log_line("uart:~$ hello")` is `"hello"` |
| `SanitizerExamples.ColourExample` | main.py:25 | `clean_log_line("\x1b[32mOK\x1b[0m")` is `"OK"` |
| `SanitizerExamples.EscapeRemovalNotIdempotent` | main.py:25 | `"\x1b\x1b[mA"` cleans to `"\x1bA"`, which cleans to `None` |
| `SanitizerExamples.ExposedPromptSecondPass` | main.py:27 | `clean_log_line("uart:~$ x")` is `"x"` |
| `SanitizerExamples.PromptRemovalNotIdempotent` | main.py:27 | `"uart:uart:~$ ~$ x"` cleans to `"uart:~$ x"`, which cleans to `"x"` |
| `Bridge.PortReady` | main.py:37 | `ser and ser.is_open`: a handle exists and it is open |
| `Bridge.CommandStep` | main.py:84-88 | one received command gives one acknowledgment, the prefix followed by the command; it gives a write exactly when the port is ready, and the write is the command followed by `\n` |
| `Bridge.CommandStepInjective` | main.py:84-88 | the command is determined by its acknowledgment and, when the port is ready, by its write |
| `Bridge.ReadFromSerialPort` | main.py:36-47 | an absent or closed handle, or a read that raises, gives `None`; otherwise the result is the cleaned text, so a returned line is non-empty and trimmed |

## Left out

- Opening `COM11` at 115200 baud when the module is loaded, and the global `ser` handle (main.py:12-17): device I/O. The handle is a value, `Bridge.SerialHandle`, that says whether it exists and is open.
- `ser.readline()`, `ser.write` and what they do on the device: device I/O. What a read returned, or that it raised, is an input to `Bridge.ReadFromSerialPort`.
- UTF-8 decoding with `errors='replace'` (main.py:41) and `.encode('utf-8')` (main.py:87): library codecs. The model works on decoded text, and the write payload is text.
- The reader task and its `while True` loop, `asyncio.to_thread`, `asyncio.sleep`, task creation and cancellation, and the WebSocket accept, receive and send calls (main.py:55-95): concurrency and network I/O. Only one pass of the command loop is modelled.
- The log output written with `print` (main.py:14, 16, 46, 58, 72, 74, 82, 91, 94): console output with no effect on behaviour.
- The HTML page route (main.py:51-53): web framework glue.
