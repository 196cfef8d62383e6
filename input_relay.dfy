/**
 * The input loop of `main`: each line the user types is checked for the exit
 * word, logged as a command unless it is blank, and written to the shell
 * followed by a newline. The end of input logs a marker and stops; any other
 * failure to read a line is logged as an error and the loop goes on.
 */
module InputRelay {
  import opened Text
  import opened Sanitizer
  import opened NoiseFilter
  import opened Logger

  /** One attempt of `input()`. Running out of attempts is the end of input
      (`EOFError`). */
  datatype InputEvent =
    | Line(text: string)        // a line typed by the user, without its newline
    | Failure(message: string)  // `input()` raised another exception, shown as `message`

  /** The word that ends the session, compared after `strip().lower()`. */
  const ExitWord: string := "exitt"

  /** What `main` logs when the input ends. */
  const EofMessage: string := "EOF received"

  /** `user_input.strip().lower() == 'exitt'` */
  predicate IsExitToken(u: string) {
    Lower(Strip(u)) == ExitWord
  }

  predicate IsExit(e: InputEvent) {
    e.Line? && IsExitToken(e.text)
  }

  /** Index of the first exit line, or the number of events when there is none:
      the events the loop handles before it stops. */
  function StopIndex(inputs: seq<InputEvent>): (k: nat)
    ensures k <= |inputs|
  {
    if inputs == [] || IsExit(inputs[0]) then 0 else 1 + StopIndex(inputs[1..])
  }

  /** What one event that does not stop the loop appends to the log. */
  function Logged(e: InputEvent): seq<string> {
    match e
    case Line(u) => if Strip(u) != [] then CommandRecord(u) else []
    case Failure(m) => Record(m)
  }

  /** What one event that does not stop the loop writes to the shell. */
  function Written(e: InputEvent): seq<string> {
    match e
    case Line(u) => [u + "\n"]
    case Failure(_) => []
  }

  /** Everything the loop appends to the log: the events before the stop, then
      `log("")` for the exit word or `log("EOF received")` for the end of input. */
  function InputRecords(inputs: seq<InputEvent>): seq<string> {
    var k := StopIndex(inputs);
    FlatMap(Logged, inputs[..k]) + if k < |inputs| then Record([]) else Record(EofMessage)
  }

  /** Everything the loop writes to the shell, one write per line. */
  function ShellWrites(inputs: seq<InputEvent>): seq<string> {
    FlatMap(Written, inputs[..StopIndex(inputs)])
  }

  /** The `while True` loop of `main`, over the results of `input()`; returns the
      writes it makes to the shell. */
  method InputLoop(inputs: seq<InputEvent>, logger: ShellLogger) returns (written: seq<string>)
    modifies logger
    ensures written == ShellWrites(inputs)
    ensures logger.entries == old(logger.entries) + InputRecords(inputs)
  {
    ghost var start := logger.entries;
    written := [];
    var i := 0;
    assert inputs[..i] == [];
    while true
      invariant 0 <= i <= StopIndex(inputs)
      invariant written == FlatMap(Written, inputs[..i])
      invariant logger.entries == start + FlatMap(Logged, inputs[..i])
      decreases |inputs| - i
    {
      ghost var done := FlatMap(Logged, inputs[..i]);
      if i == |inputs| {
        logger.Log(EofMessage);
        EndStep(inputs, i);
        AppendAfter(start, done, Record(EofMessage));
        return;
      }
      var stop, write := HandleInput(inputs[i], logger);
      if stop {
        ExitStep(inputs, i);
        AppendAfter(start, done, Record([]));
        return;
      }
      NextStep(inputs, i);
      AppendAfter(start, done, Logged(inputs[i]));
      written := written + write;
      i := i + 1;
    }
  }

  /** One pass of the loop body for a read that did not hit the end of input:
      stop on the exit word after `log("")`; otherwise log the line as a
      command unless it is blank and write it to the shell, or log the error
      the read raised. */
  method HandleInput(event: InputEvent, logger: ShellLogger) returns (stop: bool, write: seq<string>)
    modifies logger
    ensures stop <==> IsExit(event)
    ensures stop ==> write == [] && logger.entries == old(logger.entries) + Record([])
    ensures !stop ==> write == Written(event) && logger.entries == old(logger.entries) + Logged(event)
  {
    match event {
      case Line(u) =>
        if IsExitToken(u) {
          logger.Log([]);
          return true, [];
        }
        if Strip(u) != [] {
          logger.LogCommand(u);
        }
        return false, [u + "\n"];
      case Failure(m) =>
        logger.LogError(m);
        return false, [];
    }
  }

  /** The input ends: `log("EOF received")` is the last record. */
  lemma EndStep(inputs: seq<InputEvent>, i: nat)
    requires i == |inputs| && i <= StopIndex(inputs)
    ensures ShellWrites(inputs) == FlatMap(Written, inputs[..i])
    ensures InputRecords(inputs) == FlatMap(Logged, inputs[..i]) + Record(EofMessage)
  {
  }

  /** The exit word: `log("")` is the last record and nothing more is written. */
  lemma ExitStep(inputs: seq<InputEvent>, i: nat)
    requires i < |inputs| && i <= StopIndex(inputs) && IsExit(inputs[i])
    ensures ShellWrites(inputs) == FlatMap(Written, inputs[..i])
    ensures InputRecords(inputs) == FlatMap(Logged, inputs[..i]) + Record([])
  {
    StopAt(inputs, i);
  }

  /** Any other event is handled and the loop goes on. */
  lemma NextStep(inputs: seq<InputEvent>, i: nat)
    requires i < |inputs| && i <= StopIndex(inputs) && !IsExit(inputs[i])
    ensures i + 1 <= StopIndex(inputs)
    ensures FlatMap(Written, inputs[..i + 1]) == FlatMap(Written, inputs[..i]) + Written(inputs[i])
    ensures FlatMap(Logged, inputs[..i + 1]) == FlatMap(Logged, inputs[..i]) + Logged(inputs[i])
  {
    hide Logged;
    StopAfter(inputs, i);
    FlatMapPrefix(Written, inputs, i);
    FlatMapPrefix(Logged, inputs, i);
  }

  /** `StopIndex` is the one index before which no event is an exit line and
      at which there is one, unless it is the end. */
  lemma {:induction false} StopIndexIs(inputs: seq<InputEvent>, k: nat)
    requires k <= |inputs|
    ensures (forall j :: 0 <= j < k ==> !IsExit(inputs[j])) && (k < |inputs| ==> IsExit(inputs[k]))
      <==> StopIndex(inputs) == k
    decreases k
  {
    hide IsExitToken;
    if inputs != [] && !IsExit(inputs[0]) && k > 0 {
      StopIndexIs(inputs[1..], k - 1);
      assert forall j :: 0 <= j < k - 1 ==> inputs[1..][j] == inputs[j + 1];
    }
  }

  /** An exit line the loop reaches is where it stops. */
  lemma {:induction false} StopAt(inputs: seq<InputEvent>, i: nat)
    requires i <= StopIndex(inputs) && i < |inputs| && IsExit(inputs[i])
    ensures StopIndex(inputs) == i
    decreases i
  {
    if i > 0 {
      assert inputs[1..][i - 1] == inputs[i];
      StopAt(inputs[1..], i - 1);
    }
  }

  /** The loop goes past any other event it reaches. */
  lemma {:induction false} StopAfter(inputs: seq<InputEvent>, i: nat)
    requires i <= StopIndex(inputs) && i < |inputs| && !IsExit(inputs[i])
    ensures i < StopIndex(inputs)
    decreases i
  {
    if i > 0 {
      assert inputs[1..][i - 1] == inputs[i];
      StopAfter(inputs[1..], i - 1);
    }
  }

  // ---------------------------------------------------------------------------
  // Properties of the loop

  /** The exit word is matched whatever its case and surrounding whitespace,
      and only as the whole stripped line. */
  lemma ExitWordVariants()
    ensures IsExitToken("ExitT ") && IsExitToken("exitt")
    ensures !IsExitToken("exit") && !IsExitToken("exitt now")
  {
    hide Strip;
    StripOfTrimmed("exitt");
    StripOfTrimmed("exit");
    StripOfTrimmed("exitt now");
    MixedCaseExit("ExitT ");
    LowerOfLower(ExitWord);
  }

  lemma MixedCaseExit(u: string)
    requires u == "ExitT "
    ensures Strip(u) == "ExitT" && Lower("ExitT") == ExitWord
  {
    StripTrailingSpace(u, "ExitT");
    LowerExitT("ExitT");
  }

  lemma StripTrailingSpace(u: string, w: string)
    requires u == w + " " && Trimmed(w)
    ensures Strip(u) == w
  {
    assert u[..|u| - 1] == w;
    assert TrailingSpaces(u) == 1;
    assert Span(u, IsSpace) == 0;
  }

  lemma LowerExitT(w: string)
    requires w == "ExitT"
    ensures Lower(w) == ExitWord
  {
    assert Lower(w)[0] == 'e' && Lower(w)[4] == 't';
  }

  /** Lower-case text is its own lower case. */
  lemma LowerOfLower(w: string)
    requires forall i :: 0 <= i < |w| ==> !('A' <= w[i] <= 'Z')
    ensures Lower(w) == w
  {
  }

  /** The `if user_input.strip()` guard changes nothing in the log: a blank
      line is already ignored by `log_command`. */
  lemma BlankCommandIgnored(u: string)
    ensures Logged(Line(u)) == CommandRecord(u)
  {
    if Strip(u) == [] {
      StripTrims(u);
      WhitespaceMessageIsIgnored(u);
    }
  }

  /** Leaving with the exit word adds nothing to the log (`log("")` is dropped),
      and the exit word itself is not logged. */
  lemma ExitLeavesNoRecord(inputs: seq<InputEvent>)
    requires StopIndex(inputs) < |inputs|
    ensures InputRecords(inputs) == FlatMap(Logged, inputs[..StopIndex(inputs)])
  {
    EmptyMessageNotRecorded();
  }

  /** The end of input is logged as the line "EOF received", after everything
      that came before it. */
  lemma EndOfInputRecorded(inputs: seq<InputEvent>)
    requires StopIndex(inputs) == |inputs|
    ensures InputRecords(inputs) == FlatMap(Logged, inputs) + [EofMessage + "\n"]
  {
    hide Record;
    hide Logged;
    hide StopIndex;
    EofMarkerRecorded(EofMessage);
    TakeAll(inputs);
  }

  /** Nothing after the exit word is read: appending events changes neither
      the log nor the writes. */
  lemma StopIgnoresRest(inputs: seq<InputEvent>, more: seq<InputEvent>)
    requires StopIndex(inputs) < |inputs|
    ensures StopIndex(inputs + more) == StopIndex(inputs)
    ensures InputRecords(inputs + more) == InputRecords(inputs)
    ensures ShellWrites(inputs + more) == ShellWrites(inputs)
  {
    hide IsExitToken;
    var k := StopIndex(inputs);
    StopIndexIs(inputs, k);
    assert forall j :: 0 <= j <= k ==> (inputs + more)[j] == inputs[j];
    StopIndexIs(inputs + more, k);
    assert (inputs + more)[..k] == inputs[..k];
  }

  /** Every write is one line the user typed, with its newline, and never the
      exit word. */
  lemma {:induction false} WritesAreTypedLines(events: seq<InputEvent>)
    requires forall j :: 0 <= j < |events| ==> !IsExit(events[j])
    ensures forall w :: w in FlatMap(Written, events) ==>
      exists u :: Line(u) in events && w == u + "\n" && !IsExitToken(u)
    decreases |events|
  {
    if events != [] {
      var rest := events[1..];
      WritesAreTypedLines(rest);
      assert forall e :: e in rest ==> e in events;
      assert FlatMap(Written, events) == Written(events[0]) + FlatMap(Written, rest);
    }
  }

  /** What the loop writes to the shell never holds the exit word. */
  lemma ShellWritesAreTypedLines(inputs: seq<InputEvent>)
    ensures forall w :: w in ShellWrites(inputs) ==>
      exists u :: Line(u) in inputs && w == u + "\n" && !IsExitToken(u)
  {
    var k := StopIndex(inputs);
    var done := inputs[..k];
    StopIndexIs(inputs, k);
    WritesAreTypedLines(done);
    assert forall e :: e in done ==> e in inputs;
  }
}
