# Shell session logger — a Dafny model

`a.py` runs an interactive `bash` behind a pseudo-terminal and keeps a plain
text log of the session. This project models the text pipeline behind that
log and proves properties about it:

- **`ShellLogger.clean_ansi`** (module `Sanitizer`): five `re.sub` deletion
  passes applied in a fixed order. Four remove terminal escape sequences: an
  OSC-like form, two CSI forms, and the general ECMA-48 escape grammar
  (sections 5.3 and 5.4 of ECMA-48). The last removes SHIFT IN, three fixed
  cursor/erase sequences and carriage returns. Each pass is `Sub(p, s)`. It
  scans left to right and deletes the leftmost non-overlapping matches.
  `MatchLen` is proved to find exactly the match the pattern's language
  allows.
- **`ShellLogger.should_ignore`** (module `NoiseFilter`): sanitise the
  message, then search it for any of the five noise patterns. These are a
  Kali prompt header, the prompt continuation, `stty:` warnings, blank text
  and `[…] exec:` lines. Each pattern has a hand-written scan (`Search`) and
  an independent declarative description (`Occurs`), and the two are proved
  equal.
- **`ShellLogger.log` and its wrappers** (module `Logger`): the log file is
  append-only. It is modelled as the field `entries`, the sequence of entries
  appended so far. `Record(m)` is what one `log(m)` appends: nothing, or one
  sanitised, stripped entry ending in a newline (the entry may itself hold
  newlines).
- **`read_output`** (module `OutputRelay`): the line-reassembly buffer, as
  the class `LineBuffer`. The terminal's reads are a sequence of events: a
  decoded chunk, a chunk that failed to decode, or an OS error that ends the
  loop.
- **`main`'s input loop** (module `InputRelay`): the user's lines are a
  sequence of events. The loop stops at the exit word or at the end of
  input. It logs commands and returns the sequence of strings written to the
  shell.

Module `Text` holds what Python's `str` supplies: the `\s` / `str.strip()`
whitespace class, `strip`, `lower`, and the "is a subsequence of" relation.

Four behaviours of the code are easy to expect otherwise. The model follows
the code in each:

- `clean_ansi` is not idempotent. `ESC CR [31m` is cleaned to `ESC [31m`,
  because only the last pass removes the CR. Cleaning that again gives the
  empty string. `Sanitizer.CleanNotIdempotent` proves both steps.
- `should_ignore` searches the sanitised message before it is stripped; only
  `log` strips, afterwards. So `stty: ` is ignored, because `stty: .*` matches
  it. Yet the line `log` would write for it, `stty:`, is not blank and holds
  no pattern. A line can therefore be dropped even though its trimmed text
  matches nothing. `NoiseFilter.IgnoredBeforeStrip` proves this.
- Not every escape sequence is removed. `ESC ( B`, a character-set
  designation, matches none of the five passes: `(` is neither a byte of
  `[@-Z\\-_]` nor `[`. So `ESC ( B` followed by text is logged with its
  escape. `Sanitizer.CharsetDesignationKept` and
  `Logger.EscapeSequenceLogged` prove this.
- The exit word is not written to the shell. The loop breaks before
  `os.write`. The `log("")` it calls appends nothing, because the empty
  string is blank text. `InputRelay.HandleInput` and
  `Logger.EmptyMessageNotRecorded` state this.

## Model

| member | source | states |
|---|---|---|
| Text.IsSpace | a.py:15 | the whitespace class of Python's `\s` and `str.strip()` |
| Text.Strip | a.py:51 | `str.strip()`: the text without its leading and trailing whitespace |
| Text.Lower | a.py:123 | `str.lower()` on ASCII letters |
| Sanitizer.Sub | a.py:33-39 | one `re.sub(pattern, '', text)`: scanning left to right, a match starting at a position is deleted, otherwise the character is kept |
| Sanitizer.Clean | a.py:19-40 | `clean_ansi`: the five passes composed in the order of a.py:33-39 |
| Sanitizer.MatchLen | a.py:33-39 | a match length never exceeds the text, and a match starts with the pass's introducing character |
| Sanitizer.MatchLenIsThePattern | a.py:21-39 | for each pass, `MatchLen` is a prefix in the pattern's regular language, and it is the only non-empty prefix in that language |
| Sanitizer.Ecma48MatchIsThePattern | a.py:21-30 | the general ECMA-48 pattern (ESC Fe, or CSI parameter, intermediate and final bytes) matches exactly the prefix `MatchLen` finds |
| Sanitizer.SubOnlyDeletes | a.py:33 | one `re.sub(…, '', …)` pass yields a subsequence of its input |
| Sanitizer.CleanOnlyDeletes | a.py:19-40 | `clean_ansi` only deletes characters: its result is a subsequence of its input |
| Sanitizer.SubKeepsPlainPrefix | a.py:33-39 | a prefix holding no character that can start a match passes through a pass unchanged |
| Sanitizer.CleanKeepsPlainText | a.py:19-40 | text with no ESC, SHIFT IN or CR is returned unchanged |
| Sanitizer.CleanPlainPrefix | a.py:19-40 | a prefix with no ESC, SHIFT IN or CR passes through, and the rest is cleaned on its own |
| Sanitizer.CleanWithoutEscapesOnlyDropsCR | a.py:39 | on text with no ESC and no SHIFT IN, `clean_ansi` removes exactly the carriage returns |
| Sanitizer.ControlPassRemovesAll | a.py:39 | after the last pass no CR and no SHIFT IN remain |
| Sanitizer.CleanRemovesCROrSI | a.py:19-40 | the result of `clean_ansi` never holds a CR or a SHIFT IN |
| Sanitizer.CleanColouredWord | a.py:34-39 | `ESC[31mERROR ESC[0m` followed by a newline is cleaned to `ERROR` and the newline |
| Sanitizer.CharsetDesignationKept | a.py:21-39 | `ESC ( B` followed by text matches no pass and is returned unchanged |
| Sanitizer.CleanNotIdempotent | a.py:33-39 | `clean_ansi` is not idempotent: `ESC CR [31m` cleans to `ESC [31m`, which cleans to the empty string |
| NoiseFilter.Search | a.py:11-17 | `re.search` of one pattern: a substring scan for `└─$` and `stty: `, a same-line scan for the bracketed prompt header and `[…] exec:`, all-whitespace for `^\s*$` |
| NoiseFilter.AnySearch | a.py:44 | `any(...)` of `Search` over the pattern list |
| NoiseFilter.ShouldIgnore | a.py:42-44 | `should_ignore`: sanitise with `Clean`, then `AnySearch` over the five patterns |
| NoiseFilter.AnySearchIsExists | a.py:44 | `any(...)` over the pattern list holds exactly when some pattern in the list is found |
| NoiseFilter.ContainsIsOccurs | a.py:13-14 | the substring scan holds exactly when the word occurs at some index |
| NoiseFilter.ClosesOnLineIsOccurs | a.py:12 | the lazy `.*?close` scan holds exactly when `close` occurs with no newline before it |
| NoiseFilter.ContainsBracketedIsOccurs | a.py:16 | the `open .*? close` scan holds exactly when an `open` is followed on the same line by a `close` |
| NoiseFilter.SearchIsOccurs | a.py:11-17 | for each pattern, the scan standing for `re.search` agrees with its declarative description |
| NoiseFilter.ShouldIgnoreIsOccurs | a.py:42-44 | `should_ignore(m)` holds exactly when one of the five patterns occurs in `clean_ansi(m)` |
| NoiseFilter.BlankIsIgnored | a.py:15 | a message whose sanitised text is empty or all whitespace is ignored |
| NoiseFilter.WhitespaceMessageIsIgnored | a.py:15 | an empty or all-whitespace message is ignored |
| NoiseFilter.OccurrenceIsIgnored | a.py:42-44 | any occurrence of a pattern in the sanitised message makes it ignored |
| NoiseFilter.IgnoredBeforeStrip | a.py:42-51 | `stty: ` is ignored, although its sanitised and stripped text `stty:` is not blank and holds no pattern |
| NoiseFilter.KaliPromptIsIgnored | a.py:12 | the prompt `┌──(kali㉿kali)-[~]` is ignored |
| NoiseFilter.OccursInSlice | a.py:12-16 | a pattern other than blank text that occurs in a slice occurs in the whole text |
| NoiseFilter.OccursBehindPrefix | a.py:12-16 | a non-blank prefix that holds none of the patterns' first characters cannot make a pattern occur |
| Logger.Record | a.py:46-59 | what `log(m)` appends: nothing when `m` is ignored or its sanitised, stripped text is empty, else that text and a newline |
| Logger.CommandRecord | a.py:61-63 | what `log_command(c)` appends: nothing when `c` is ignored, else what `log("Command: " + c)` appends |
| Logger.ShellLogger.constructor | a.py:9-17 | a new logger has appended no lines yet; whatever the file already holds is not modelled |
| Logger.ShellLogger.Log | a.py:46-59 | `log(m)` appends `Record(m)` and leaves earlier entries untouched |
| Logger.ShellLogger.LogCommand | a.py:61-63 | `log_command(c)` appends `CommandRecord(c)`: nothing when `c` is ignored, else what `log("Command: " + c)` appends |
| Logger.ShellLogger.LogOutput | a.py:65-67 | `log_output(x)` has the same effect as `log(x)` |
| Logger.ShellLogger.LogError | a.py:69-71 | `log_error(x)` has the same effect as `log(x)` |
| Logger.RecordEmptyIffIgnored | a.py:46-53 | `log(m)` appends nothing exactly when `should_ignore(m)` holds, so the empty-after-strip test never decides alone |
| Logger.RecordIsLoggable | a.py:46-59 | `log` appends at most one entry (which may itself hold newlines). It is a slice of the sanitised message, with no surrounding whitespace, no CR, no SHIFT IN and no noise pattern, followed by a newline |
| Logger.LabelledCommandNotIgnored | a.py:61-63 | when the command is not ignored, neither is `"Command: " + command`, and the label passes through `clean_ansi` |
| Logger.CommandRecordText | a.py:61-63 | a command that is not ignored is logged as `Command: `, the sanitised command with trailing whitespace stripped, and a newline |
| Logger.EmptyMessageNotRecorded | a.py:124 | `log("")` appends nothing |
| Logger.PlainLineRecorded | a.py:46-59 | a message with no ESC, SHIFT IN or CR, no whitespace at either end and no noise pattern occurring in it is logged verbatim with a newline |
| Logger.EscapeSequenceLogged | a.py:46-59 | `ESC ( B` followed by text is not ignored and is written to the log with its escape |
| Logger.EofMarkerRecorded | a.py:132 | `log("EOF received")` appends `EOF received` and a newline |
| OutputRelay.Split | a.py:95 | `buffer.split('\n')`: the pieces between newlines, always at least one |
| OutputRelay.Lines | a.py:96 | `lines[:-1]`: the complete lines |
| OutputRelay.Rest | a.py:99 | `lines[-1]`: the text after the last newline, kept as the new buffer |
| OutputRelay.Emitted | a.py:96-98 | the stripped text of each complete line that is not blank, in order |
| OutputRelay.RelayLines | a.py:87-106 | the lines handed to `log_output` over a run of reads: an empty chunk is skipped, a decode error empties the buffer, an OS error ends the loop |
| OutputRelay.RelayBuffer | a.py:87-106 | the buffer after a run of reads, under the same three cases |
| OutputRelay.JoinSplit | a.py:95 | joining the pieces of `split('\n')` with newlines gives back the text |
| OutputRelay.SplitJoin | a.py:95 | splitting lines that hold no newline, once joined, gives back those lines |
| OutputRelay.SplitPiecesAreLines | a.py:95 | no piece of `split('\n')` holds a newline |
| OutputRelay.SplitAppend | a.py:95-99 | splitting `s + t` gives the complete lines of `s`, then the split of the unfinished tail of `s` followed by `t` |
| OutputRelay.LinesAppend | a.py:92-99 | the complete lines of `s + t` are those of `s` followed by those of its tail plus `t`, and both leave the same tail |
| OutputRelay.EmittedTrimmed | a.py:96-98 | each line handed to `log_output` is non-empty and stripped, and there are no more of them than lines |
| OutputRelay.TrimmedLinesEmitted | a.py:96-98 | lines that are already non-empty and stripped are all handed on unchanged |
| OutputRelay.LineBuffer.constructor | a.py:86 | the buffer starts empty |
| OutputRelay.LineBuffer.Feed | a.py:90-99 | after a chunk the buffer holds no newline and is the text after the last newline of old buffer plus chunk. The stripped non-blank complete lines are logged in order. An empty chunk changes nothing |
| OutputRelay.LineBuffer.LogLines | a.py:96-98 | the loop over `lines[:-1]` logs exactly the stripped non-blank lines, in order |
| OutputRelay.LineBuffer.DecodeFailed | a.py:103-106 | a decode error resets the buffer to empty and logs nothing |
| OutputRelay.LineBuffer.Run | a.py:87-106 | a run of reads leaves the buffer and the log as `RelayBuffer` and `RelayLines` describe, stopping at the first OS error |
| OutputRelay.ReadOutput | a.py:85-106 | `read_output` starts from an empty buffer and logs `RelayLines([], events)` |
| OutputRelay.ChunkBoundariesInvisible | a.py:92-99 | with no read errors, the lines logged depend only on the concatenated text, not on how the reads cut it |
| OutputRelay.LineSplitAcrossReads | a.py:92-99 | the reads `hello wor` and `ld\nfoo\n` emit `hello world` then `foo` and leave the buffer empty |
| InputRelay.IsExitToken | a.py:123 | `user_input.strip().lower() == 'exitt'` |
| InputRelay.StopIndex | a.py:120-125 | the position of the first exit word, or the number of inputs when there is none |
| InputRelay.Logged | a.py:122-135 | what one input that is not the exit word adds to the log: a command record unless it is blank; a failed read's message through `log_error` |
| InputRelay.Written | a.py:129 | what one input writes to the shell: a typed line and a newline; a failed read writes nothing |
| InputRelay.InputRecords | a.py:120-135 | what the whole loop adds to the log: the records of the inputs before the stop, then `log("")` at the exit word or `log("EOF received")` at the end of input |
| InputRelay.ShellWrites | a.py:120-129 | what the whole loop writes to the shell: the writes of the inputs before the stop |
| InputRelay.HandleInput | a.py:122-135 | one input step: the exit word stops the loop and writes nothing. Any other line is logged as a command unless blank, and is written with a newline. A failed read is logged as an error |
| InputRelay.InputLoop | a.py:120-135 | the loop writes `ShellWrites(inputs)` to the shell and appends `InputRecords(inputs)` to the log |
| InputRelay.StopIndexIs | a.py:120-125 | the loop stops at the first exit word, or after the last input |
| InputRelay.ExitWordVariants | a.py:123 | `ExitT ` and `exitt` end the session; `exit` and `exitt now` do not |
| InputRelay.BlankCommandIgnored | a.py:127-128 | the `strip()` guard before `log_command` changes nothing in the log |
| InputRelay.ExitLeavesNoRecord | a.py:123-125 | stopping at the exit word adds nothing to the log after the earlier commands |
| InputRelay.EndOfInputRecorded | a.py:131-133 | reaching the end of input appends `EOF received` after the commands' records |
| InputRelay.StopIgnoresRest | a.py:120-125 | inputs after the exit word change neither the log nor what is written to the shell |
| InputRelay.ShellWritesAreTypedLines | a.py:129 | everything written to the shell is a typed line that is not the exit word, followed by a newline |

## Left out

- Pseudo-terminal creation, `subprocess.Popen`, `process.terminate()` and closing the descriptors (a.py:73-83, 140-144) are operating-system calls.
- The output thread and its concurrency with the input loop (a.py:113-118). The two loops are modelled separately, each over its own sequence of events.
- Echoing the shell's output to the console with `print` (a.py:91) and the final message (a.py:144) are console output with no effect on the log.
- `os.read` and UTF-8 decoding (a.py:89) are modelled as a sequence of already-decoded chunks, decode errors and a final OS error. UTF-8 validity and the 1024-byte read size are not modelled.
- `input()` is modelled as a sequence of lines and failures whose end is the end of input. Which runtime errors reach the generic `except Exception` (a.py:134-135) is not modelled.
- A failure of `os.write` (a.py:129) would be logged by the generic handler after the command was logged. The model treats every write as successful.
- The outer `Critical error` handler (a.py:137-138) covers the process and thread set-up, which is not modelled.
- The file itself, opened in append mode (a.py:58-59), is modelled as the sequence of lines appended to it. Lines already in the file are not modelled.
- Appends to the log are assumed to succeed. A failed `open` or `write` (a.py:58-59) raises `OSError`. In `read_output`, `except OSError` (a.py:101-102) would then end the relay, possibly part way through a chunk's lines. In the input loop, a.py:134-135 would catch it.
- The timestamp and `message_type` (a.py:46, 55) are computed but never written, so they do not appear.
- Text.Lower: lower-cases ASCII letters only; Python's full Unicode case mapping is not modelled. Only the comparison with the ASCII word `exitt` uses it.
