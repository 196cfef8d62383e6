/**
 * `ShellLogger.log` and its three wrappers. The log file is append-only; it
 * is modelled as the sequence of lines appended to it, each ending in a
 * newline. The timestamp and message type that `log` computes are never
 * written, so they do not appear here.
 */
module Logger {
  import opened Text
  import opened Sanitizer
  import opened NoiseFilter

  /** What `log(message)` appends to the log file: nothing, or one entry ending
      in a newline (the entry may itself hold newlines). */
  function Record(message: string): seq<string> {
    if ShouldIgnore(message) then []
    else
      var cleaned := Strip(Clean(message));
      if cleaned == [] then [] else [cleaned + "\n"]
  }

  /** The label `log_command` puts in front of a command. */
  const CommandLabel: string := "Command: "

  /** What `log_command(command)` appends. */
  function CommandRecord(command: string): seq<string> {
    if ShouldIgnore(command) then [] else Record(CommandLabel + command)
  }

  /** What a sequence of `log_output` calls appends. */
  function OutputRecords(outputs: seq<string>): seq<string> {
    FlatMap(Record, outputs)
  }

  class ShellLogger {
    /** The lines appended to the log file so far. */
    var entries: seq<string>

    constructor ()
      ensures entries == []
    {
      entries := [];
    }

    method Log(message: string)
      modifies this
      ensures entries == old(entries) + Record(message)
    {
      if ShouldIgnore(message) {
        return;
      }
      var cleaned := Strip(Clean(message));
      if cleaned == [] {
        return;
      }
      entries := entries + [cleaned + "\n"];
    }

    method LogCommand(command: string)
      modifies this
      ensures entries == old(entries) + CommandRecord(command)
    {
      if !ShouldIgnore(command) {
        Log(CommandLabel + command);
      }
    }

    /** The wrapper's own `should_ignore` test repeats the one inside `log`,
        so the effect is that of `log(output)`. */
    method LogOutput(output: string)
      modifies this
      ensures entries == old(entries) + Record(output)
    {
      if !ShouldIgnore(output) {
        Log(output);
      }
    }

    method LogError(error: string)
      modifies this
      ensures entries == old(entries) + Record(error)
    {
      if !ShouldIgnore(error) {
        Log(error);
      }
    }
  }

  // ---------------------------------------------------------------------------
  // What can reach the log

  /** A line fit for the log: not empty, no surrounding whitespace, no
      carriage return or SI, and no ignore pattern occurs in it. */
  ghost predicate Loggable(line: string) {
    Trimmed(line) &&
    CR !in line && SI !in line &&
    forall p :: p in IgnorePatterns ==> !Occurs(p, line)
  }

  /** `log` drops a message exactly when `should_ignore` holds: its second
      test, that the stripped text is empty, never fires on its own, because
      blank text is already an ignore pattern. */
  lemma RecordEmptyIffIgnored(message: string)
    ensures Record(message) == [] <==> ShouldIgnore(message)
  {
    var cleaned := Clean(message);
    StripTrims(cleaned);
    if Strip(cleaned) == [] {
      BlankIsIgnored(message);
    }
  }

  /** Whatever `log` appends is one entry: a loggable slice of the sanitised
      message, followed by a newline. The slice may itself hold newlines. */
  lemma RecordIsLoggable(message: string)
    ensures |Record(message)| <= 1
    ensures forall e :: e in Record(message) ==>
      exists line :: e == line + "\n" && Loggable(line) && IsSliceOf(line, Clean(message))
  {
    hide Sub;
    if !ShouldIgnore(message) {
      var c := Clean(message);
      RecordEmptyIffIgnored(message);
      assert Record(message) == [Strip(c) + "\n"];
      CleanRemovesCROrSI(message);
      ShouldIgnoreIsOccurs(message);
      StrippedLoggable(c);
    }
  }

  /** Sanitised text that is not ignored is loggable once stripped. */
  lemma StrippedLoggable(c: string)
    requires Strip(c) != [] && CR !in c && SI !in c
    requires forall p :: p in IgnorePatterns ==> !Occurs(p, c)
    ensures Loggable(Strip(c)) && IsSliceOf(Strip(c), c)
  {
    hide *;
    var line := Strip(c);
    StripTrims(c);
    StripIsSlice(c);
    var lo := Span(c, IsSpace);
    var hi := lo + |line|;
    assert line == c[lo..hi];
    SliceLoggable(c, lo, hi);
  }

  /** A slice of sanitised text that is not ignored, trimmed of whitespace, is loggable. */
  lemma SliceLoggable(c: string, lo: nat, hi: nat)
    requires lo <= hi <= |c|
    requires CR !in c && SI !in c
    requires forall p :: p in IgnorePatterns ==> !Occurs(p, c)
    requires Trimmed(c[lo..hi])
    ensures Loggable(c[lo..hi]) && IsSliceOf(c[lo..hi], c)
  {
    var line := c[lo..hi];
    assert forall k :: 0 <= k < |line| ==> line[k] == c[lo + k];
    forall p | p in IgnorePatterns ensures !Occurs(p, line) {
      if p != BlankLine {
        OccursInSlice(p, c, lo, hi);
      }
    }
  }

  ghost predicate IsSliceOf(t: string, s: string) {
    exists lo, hi :: 0 <= lo <= hi <= |s| && t == s[lo..hi]
  }

  /** The label holds nothing that starts an escape sequence or an ignore
      pattern, so it neither changes under `clean_ansi` nor creates a match. */
  lemma LabelIsInert(x: string)
    ensures forall p :: p in IgnorePatterns && Occurs(p, CommandLabel + x) ==> Occurs(p, x)
  {
    assert !IsSpace(CommandLabel[0]);
    forall p | p in IgnorePatterns ensures Occurs(p, CommandLabel + x) ==> Occurs(p, x) {
      OccursBehindPrefix(p, CommandLabel, x);
    }
  }

  lemma LabelledCommandNotIgnored(command: string)
    requires !ShouldIgnore(command)
    ensures Clean(CommandLabel + command) == CommandLabel + Clean(command)
    ensures !ShouldIgnore(CommandLabel + command)
    ensures !AllSpace(Clean(command))
  {
    hide Sub;
    CleanPlainPrefix(CommandLabel, command);
    LabelIsInert(Clean(command));
    ShouldIgnoreIsOccurs(command);
    ShouldIgnoreIsOccurs(CommandLabel + command);
    assert BlankLine in IgnorePatterns;
  }

  lemma StripLabelled(x: string)
    requires !AllSpace(x)
    ensures Strip(CommandLabel + x) == CommandLabel + RStrip(x)
  {
    var s := CommandLabel + x;
    assert s[0] == 'C';
    assert Span(s, IsSpace) == 0;
    assert LStrip(s) == s;
    RStripAppend(CommandLabel, x);
  }

  /** A command that is not ignored is logged with its label, its sanitised
      text keeping its leading whitespace: the label shields it from `strip`. */
  lemma CommandRecordText(command: string)
    requires !ShouldIgnore(command)
    ensures CommandRecord(command) == [CommandLabel + RStrip(Clean(command)) + "\n"]
  {
    LabelledCommandNotIgnored(command);
    StripLabelled(Clean(command));
  }

  /** `log("")`, the exit marker, writes nothing. */
  lemma EmptyMessageNotRecorded()
    ensures Record([]) == []
  {
    assert Clean([]) == [];
    BlankIsIgnored([]);
  }

  /** Text with no escape, SI or carriage return, in which no ignore pattern
      occurs, and with no whitespace at either end. */
  ghost predicate PlainLine(message: string) {
    Trimmed(message) &&
    ESC !in message && SI !in message && CR !in message &&
    forall p :: p in IgnorePatterns ==> !Occurs(p, message)
  }

  /** A plain line is logged exactly as it is. */
  lemma PlainLineRecorded(message: string)
    requires PlainLine(message)
    ensures Record(message) == [message + "\n"]
  {
    hide Sub;
    CleanKeepsPlainText(message);
    ShouldIgnoreIsOccurs(message);
    StripOfTrimmed(message);
  }

  /** `log("EOF received")` writes that text as a line. */
  lemma EofMarkerRecorded(message: string)
    requires message == "EOF received"
    ensures Record(message) == [message + "\n"]
  {
    forall p | p in IgnorePatterns ensures !Occurs(p, message) {
      OccursBehindPrefix(p, message, []);
      assert message + [] == message;
    }
    PlainLineRecorded(message);
  }

  /** An escape sequence that no pass removes reaches the log: `ESC ( B`
      followed by text is logged as it is, escape included. */
  lemma EscapeSequenceLogged(message: string)
    requires message == [ESC] + "(Bok"
    ensures ESC in message
    ensures Record(message) == [message + "\n"]
  {
    hide Sub;
    CharsetDesignationKept(message);
    ShouldIgnoreIsOccurs(message);
    assert message[0] == ESC && message[1] == '(' && message[2] == 'B';
    assert message[3] == 'o' && message[4] == 'k' && !IsSpace(message[4]);
    forall p | p in IgnorePatterns ensures !Occurs(p, message) {
      OccursBehindPrefix(p, message, []);
      assert message + [] == message;
    }
    StripOfTrimmed(message);
  }
}
