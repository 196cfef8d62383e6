/**
 * The line reassembly in `read_output`: each decoded chunk read from the
 * terminal is appended to a buffer; when the buffer holds a newline it is
 * split on newlines, every complete line that is not blank is stripped and
 * handed to `log_output`, and the piece after the last newline is kept for
 * the next chunk. A chunk that fails to decode discards the buffer.
 */
module OutputRelay {
  import opened Text
  import opened Logger

  /** Text holding no newline. */
  predicate OneLine(t: string) {
    '\n' !in t
  }

  /** Index of the first newline of `s`, or `|s|` when there is none. */
  function LineEnd(s: string): (k: nat)
    ensures k <= |s|
  {
    if s == [] || s[0] == '\n' then 0 else 1 + LineEnd(s[1..])
  }

  /** `LineEnd` is the one index before which there is no newline and at
      which there is one, unless it is the end. */
  lemma {:induction false} LineEndIs(s: string, k: nat)
    requires k <= |s|
    ensures (forall j :: 0 <= j < k ==> s[j] != '\n') && (k < |s| ==> s[k] == '\n')
      <==> LineEnd(s) == k
    decreases k
  {
    if s != [] && s[0] != '\n' && k > 0 {
      LineEndIs(s[1..], k - 1);
      assert forall j :: 0 <= j < k - 1 ==> s[1..][j] == s[j + 1];
    }
  }

  /** `s.split('\n')`: the pieces between newlines, at least one. */
  function Split(s: string): (parts: seq<string>)
    ensures |parts| >= 1
    decreases |s|
  {
    var k := LineEnd(s);
    if k == |s| then [s] else [s[..k]] + Split(s[k + 1..])
  }

  /** `'\n'.join(parts)` */
  function Join(parts: seq<string>): string
    requires |parts| >= 1
  {
    if |parts| == 1 then parts[0] else parts[0] + "\n" + Join(parts[1..])
  }

  function AllButLast<T>(q: seq<T>): seq<T>
    requires |q| >= 1
  {
    q[..|q| - 1]
  }

  function Last<T>(q: seq<T>): T
    requires |q| >= 1
  {
    q[|q| - 1]
  }

  lemma ConsAllButLast<T>(x: T, q: seq<T>)
    requires |q| >= 1
    ensures AllButLast([x] + q) == [x] + AllButLast(q)
    ensures Last([x] + q) == Last(q)
  {
  }

  /** The complete lines of `s`: `s.split('\n')[:-1]`. */
  function Lines(s: string): seq<string> {
    AllButLast(Split(s))
  }

  /** What follows the last newline of `s`: `s.split('\n')[-1]`. */
  function Rest(s: string): string {
    Last(Split(s))
  }

  /** The first newline of `s` is the first newline of `s + t`. */
  lemma LineEndInside(s: string, t: string)
    requires LineEnd(s) < |s|
    ensures LineEnd(s + t) == LineEnd(s)
  {
    var k := LineEnd(s);
    LineEndIs(s, k);
    LineEndIs(s + t, k);
    assert forall j :: 0 <= j <= k ==> (s + t)[j] == s[j];
  }

  /** Text without a newline is one piece. */
  lemma SplitWithoutNewline(s: string)
    requires OneLine(s)
    ensures Split(s) == [s]
  {
    LineEndIs(s, |s|);
  }

  /** A line followed by a newline is the first piece. */
  lemma SplitAfterLine(first: string, more: string)
    requires OneLine(first)
    ensures Split(first + "\n" + more) == [first] + Split(more)
  {
    var s := first + "\n" + more;
    var k := |first|;
    assert forall j :: 0 <= j < k ==> s[j] == first[j];
    LineEndIs(s, k);
    assert s[..k] == first;
    assert s[k + 1..] == more;
  }

  /** No piece holds a newline. */
  lemma {:induction false} SplitPiecesAreLines(s: string)
    ensures forall i :: 0 <= i < |Split(s)| ==> OneLine(Split(s)[i])
    decreases |s|
  {
    var k := LineEnd(s);
    LineEndIs(s, k);
    var first := s[..k];
    assert forall j :: 0 <= j < |first| ==> first[j] == s[j];
    assert OneLine(first);
    if k < |s| {
      SplitPiecesAreLines(s[k + 1..]);
    }
  }

  /** Joining the pieces gives back the text. */
  lemma {:induction false} JoinSplit(s: string)
    ensures Join(Split(s)) == s
    decreases |s|
  {
    var k := LineEnd(s);
    if k < |s| {
      var r := s[k + 1..];
      LineEndIs(s, k);
      JoinSplit(r);
      assert Split(s) == [s[..k]] + Split(r);
      assert Join(Split(s)) == s[..k] + "\n" + Join(Split(r));
      assert s == s[..k] + "\n" + r;
    }
  }

  /** Splitting the joined pieces gives back the pieces. */
  lemma {:induction false} SplitJoin(parts: seq<string>)
    requires |parts| >= 1 && forall i :: 0 <= i < |parts| ==> OneLine(parts[i])
    ensures Split(Join(parts)) == parts
    decreases |parts|
  {
    if |parts| == 1 {
      SplitWithoutNewline(parts[0]);
    } else {
      SplitJoin(parts[1..]);
      SplitAfterLine(parts[0], Join(parts[1..]));
    }
  }

  /** Splitting is independent of where the text was cut: the complete lines
      of `s` come first, then the pieces of its unfinished line followed by `t`. */
  lemma {:induction false} SplitAppend(s: string, t: string)
    ensures Split(s + t) == Lines(s) + Split(Rest(s) + t)
    decreases |s|
  {
    var k := LineEnd(s);
    if k == |s| {
      assert Lines(s) == [] && Rest(s) == s;
      assert [] + Split(s + t) == Split(s + t);
    } else {
      var r := s[k + 1..];
      SplitAppend(r, t);
      SplitAtNewline(s, t, k, r);
      LinesAtNewline(s, k, r);
      var first, after := s[..k], Split(Rest(r) + t);
      assert [first] + (Lines(r) + after) == ([first] + Lines(r)) + after;
    }
  }

  lemma SplitUnfold(s: string, k: nat, r: string)
    requires k == LineEnd(s) < |s| && r == s[k + 1..]
    ensures Split(s) == [s[..k]] + Split(r)
  {
  }

  lemma LinesAtNewline(s: string, k: nat, r: string)
    requires k == LineEnd(s) < |s| && r == s[k + 1..]
    ensures Lines(s) == [s[..k]] + Lines(r)
    ensures Rest(s) == Rest(r)
  {
    SplitUnfold(s, k, r);
    ConsAllButLast(s[..k], Split(r));
  }

  lemma SplitAtNewline(s: string, t: string, k: nat, r: string)
    requires k == LineEnd(s) < |s| && r == s[k + 1..]
    ensures Split(s + t) == [s[..k]] + Split(r + t)
  {
    LineEndInside(s, t);
    assert (s + t)[..k] == s[..k];
    assert (s + t)[k + 1..] == r + t;
    SplitUnfold(s + t, k, r + t);
  }

  lemma LinesAppend(s: string, t: string)
    ensures Lines(s + t) == Lines(s) + Lines(Rest(s) + t)
    ensures Rest(s + t) == Rest(Rest(s) + t)
  {
    SplitAppend(s, t);
  }

  /** What one complete line gives `log_output`: its stripped text, unless
      nothing is left. */
  function EmitLine(line: string): seq<string> {
    var stripped := Strip(line);
    if stripped != [] then [stripped] else []
  }

  /** The stripped, non-blank lines, as `read_output` hands them to `log_output`. */
  function Emitted(lines: seq<string>): seq<string> {
    FlatMap(EmitLine, lines)
  }

  /** At most one line per complete line, each without surrounding whitespace. */
  lemma {:induction false} EmittedTrimmed(lines: seq<string>)
    ensures |Emitted(lines)| <= |lines|
    ensures forall i :: 0 <= i < |Emitted(lines)| ==> Trimmed(Emitted(lines)[i])
    decreases |lines|
  {
    if lines != [] {
      StripTrims(lines[0]);
      EmittedTrimmed(lines[1..]);
      var head, tail := EmitLine(lines[0]), Emitted(lines[1..]);
      assert Emitted(lines) == head + tail;
      assert forall i :: 0 <= i < |head| ==> Trimmed(head[i]);
    }
  }

  /** Lines that are already stripped and not blank are emitted as they are. */
  lemma {:induction false} TrimmedLinesEmitted(lines: seq<string>)
    requires forall i :: 0 <= i < |lines| ==> Trimmed(lines[i])
    ensures Emitted(lines) == lines
    decreases |lines|
  {
    if lines != [] {
      StripOfTrimmed(lines[0]);
      TrimmedLinesEmitted(lines[1..]);
      assert lines == [lines[0]] + lines[1..];
    }
  }

  lemma EmittedAppend(a: seq<string>, b: seq<string>)
    ensures Emitted(a + b) == Emitted(a) + Emitted(b)
  {
    FlatMapAppend(EmitLine, a, b);
  }

  lemma OutputRecordsAppend(a: seq<string>, b: seq<string>)
    ensures OutputRecords(a + b) == OutputRecords(a) + OutputRecords(b)
  {
    hide Record;
    FlatMapAppend(Record, a, b);
  }

  lemma RecordOne(outputs: seq<string>, output: string)
    ensures OutputRecords(outputs + [output]) == OutputRecords(outputs) + Record(output)
  {
    hide Record;
    FlatMapAppend(Record, outputs, [output]);
    FlatMapOne(Record, output);
  }

  /** One read from the terminal. */
  datatype ReadEvent =
    | Chunk(data: string)   // a read that decoded to `data`
    | DecodeError           // a read whose bytes were not valid UTF-8
    | Closed                // the read failed with an OS error

  /** The lines `read_output` hands to `log_output` for a run of reads,
      starting from `buffer`. */
  ghost function RelayLines(buffer: string, events: seq<ReadEvent>): seq<string>
    decreases |events|
  {
    if events == [] then []
    else match events[0]
      case Chunk(d) =>
        if d == [] then RelayLines(buffer, events[1..])
        else Emitted(Lines(buffer + d)) + RelayLines(Rest(buffer + d), events[1..])
      case DecodeError => RelayLines([], events[1..])
      case Closed => []
  }

  /** The buffer after a run of reads, starting from `buffer`. */
  ghost function RelayBuffer(buffer: string, events: seq<ReadEvent>): string
    decreases |events|
  {
    if events == [] then buffer
    else match events[0]
      case Chunk(d) => RelayBuffer(if d == [] then buffer else Rest(buffer + d), events[1..])
      case DecodeError => RelayBuffer([], events[1..])
      case Closed => buffer
  }

  class LineBuffer {
    /** The unfinished line read so far. */
    var buffer: string

    ghost predicate Valid()
      reads this
    {
      '\n' !in buffer
    }

    constructor ()
      ensures Valid() && buffer == []
    {
      buffer := [];
    }

    /** A chunk that decoded to `data`. */
    method Feed(data: string, logger: ShellLogger) returns (emitted: seq<string>)
      requires Valid()
      modifies this, logger
      ensures Valid()
      ensures data == [] ==> buffer == old(buffer) && emitted == []
      ensures buffer == Rest(old(buffer) + data)
      ensures emitted == Emitted(Lines(old(buffer) + data))
      ensures logger.entries == old(logger.entries) + OutputRecords(emitted)
    {
      hide Record;
      emitted := [];
      if data == [] {
        assert buffer + data == buffer;
        SplitWithoutNewline(buffer);
        return;
      }
      buffer := buffer + data;
      if '\n' !in buffer {
        SplitWithoutNewline(buffer);
        return;
      }
      var lines := Split(buffer);
      SplitPiecesAreLines(buffer);
      emitted := LogLines(lines[..|lines| - 1], logger);
      buffer := lines[|lines| - 1];
    }

    /** The `for` loop over the complete lines: each one that is not blank
        once stripped goes to `log_output`. */
    method LogLines(lines: seq<string>, logger: ShellLogger) returns (emitted: seq<string>)
      modifies logger
      ensures emitted == Emitted(lines)
      ensures logger.entries == old(logger.entries) + OutputRecords(emitted)
    {
      hide Record;
      hide Strip;
      emitted := [];
      var i := 0;
      while i < |lines|
        invariant 0 <= i <= |lines|
        invariant emitted == Emitted(lines[..i])
        invariant logger.entries == old(logger.entries) + OutputRecords(emitted)
      {
        var line := Strip(lines[i]);
        FlatMapPrefix(EmitLine, lines, i);
        if line != [] {
          logger.LogOutput(line);
          RecordOne(emitted, line);
          emitted := emitted + [line];
        }
        i := i + 1;
      }
      assert lines[..i] == lines;
    }

    /** A chunk that failed to decode: the unfinished line is dropped. */
    method DecodeFailed()
      modifies this
      ensures Valid() && buffer == []
    {
      buffer := [];
    }

    /** The `while True` loop of `read_output`, over the reads it performs. */
    method Run(events: seq<ReadEvent>, logger: ShellLogger)
      requires Valid()
      modifies this, logger
      ensures Valid()
      ensures buffer == RelayBuffer(old(buffer), events)
      ensures logger.entries == old(logger.entries) + OutputRecords(RelayLines(old(buffer), events))
    {
      hide Record;
      var i := 0;
      while i < |events|
        invariant 0 <= i <= |events| && Valid()
        invariant RelayBuffer(old(buffer), events) == RelayBuffer(buffer, events[i..])
        invariant old(logger.entries) + OutputRecords(RelayLines(old(buffer), events)) ==
                  logger.entries + OutputRecords(RelayLines(buffer, events[i..]))
      {
        match events[i] {
          case Chunk(d) =>
            ghost var before, logged := buffer, logger.entries;
            RelayChunk(buffer, events, i, d);
            var out := Feed(d, logger);
            ChunkLogged(logged, out, RelayLines(buffer, events[i + 1..]));
          case DecodeError =>
            RelayDecodeError(buffer, events, i);
            DecodeFailed();
          case Closed =>
            RelayClosed(buffer, events, i);
            break;
        }
        i := i + 1;
      }
    }
  }

  lemma RelayChunk(buffer: string, events: seq<ReadEvent>, i: nat, d: string)
    requires i < |events| && events[i] == Chunk(d)
    ensures RelayLines(buffer, events[i..]) ==
      if d == [] then RelayLines(buffer, events[i + 1..])
      else Emitted(Lines(buffer + d)) + RelayLines(Rest(buffer + d), events[i + 1..])
    ensures RelayBuffer(buffer, events[i..]) ==
      RelayBuffer(if d == [] then buffer else Rest(buffer + d), events[i + 1..])
  {
    assert events[i..][0] == events[i] && events[i..][1..] == events[i + 1..];
  }

  lemma RelayDecodeError(buffer: string, events: seq<ReadEvent>, i: nat)
    requires i < |events| && events[i] == DecodeError
    ensures RelayLines(buffer, events[i..]) == RelayLines([], events[i + 1..])
    ensures RelayBuffer(buffer, events[i..]) == RelayBuffer([], events[i + 1..])
  {
    assert events[i..][0] == events[i] && events[i..][1..] == events[i + 1..];
  }

  lemma RelayClosed(buffer: string, events: seq<ReadEvent>, i: nat)
    requires i < |events| && events[i] == Closed
    ensures RelayLines(buffer, events[i..]) == []
    ensures RelayBuffer(buffer, events[i..]) == buffer
  {
    assert events[i..][0] == events[i];
  }

  /** The records of what one chunk logged, followed by the records still to come. */
  lemma ChunkLogged(logged: seq<string>, out: seq<string>, later: seq<string>)
    ensures logged + OutputRecords(out + later) == (logged + OutputRecords(out)) + OutputRecords(later)
  {
    hide Record;
    OutputRecordsAppend(out, later);
  }

  /** `read_output`: starts with an empty buffer. */
  method ReadOutput(events: seq<ReadEvent>, logger: ShellLogger)
    modifies logger
    ensures logger.entries == old(logger.entries) + OutputRecords(RelayLines([], events))
  {
    var relay := new LineBuffer();
    relay.Run(events, logger);
  }

  // ---------------------------------------------------------------------------
  // Chunk boundaries do not matter

  function Concat(chunks: seq<string>): string {
    if chunks == [] then [] else chunks[0] + Concat(chunks[1..])
  }

  function Chunks(chunks: seq<string>): seq<ReadEvent> {
    seq(|chunks|, i requires 0 <= i < |chunks| => Chunk(chunks[i]))
  }

  /** However the output is cut into chunks, the relay logs the complete lines
      of the whole output, in order, and keeps its unfinished last line. */
  lemma {:induction false} ChunkBoundariesInvisible(buffer: string, chunks: seq<string>)
    requires '\n' !in buffer
    ensures RelayLines(buffer, Chunks(chunks)) == Emitted(Lines(buffer + Concat(chunks)))
    ensures RelayBuffer(buffer, Chunks(chunks)) == Rest(buffer + Concat(chunks))
    decreases |chunks|
  {
    hide *;
    if chunks == [] {
      NoChunks(buffer, chunks);
    } else {
      var c, more := chunks[0], chunks[1..];
      ChunksCons(chunks);
      RelayChunk(buffer, Chunks(chunks), 0, c);
      if c == [] {
        ChunkBoundariesInvisible(buffer, more);
        assert buffer + Concat(chunks) == buffer + Concat(more);
      } else {
        RestIsOneLine(buffer + c);
        ChunkBoundariesInvisible(Rest(buffer + c), more);
        ChunkThenRest(buffer, c, Concat(more));
      }
    }
  }

  lemma NoChunks(buffer: string, chunks: seq<string>)
    requires '\n' !in buffer && chunks == []
    ensures RelayLines(buffer, Chunks(chunks)) == Emitted(Lines(buffer + Concat(chunks)))
    ensures RelayBuffer(buffer, Chunks(chunks)) == Rest(buffer + Concat(chunks))
  {
    SplitWithoutNewline(buffer);
    assert buffer + [] == buffer;
  }

  lemma ChunksCons(chunks: seq<string>)
    requires chunks != []
    ensures |Chunks(chunks)| == |chunks| && Chunks(chunks)[0..] == Chunks(chunks)
    ensures Chunks(chunks)[0] == Chunk(chunks[0]) && Chunks(chunks)[1..] == Chunks(chunks[1..])
    ensures Concat(chunks) == chunks[0] + Concat(chunks[1..])
  {
  }

  /** What follows the last newline holds none. */
  lemma RestIsOneLine(s: string)
    ensures '\n' !in Rest(s)
  {
    SplitPiecesAreLines(s);
  }

  /** The lines logged for one chunk, then those of its unfinished line followed
      by the rest of the output, are the lines of the whole. */
  lemma ChunkThenRest(buffer: string, c: string, more: string)
    ensures Emitted(Lines(buffer + c)) + Emitted(Lines(Rest(buffer + c) + more))
      == Emitted(Lines(buffer + (c + more)))
    ensures Rest(Rest(buffer + c) + more) == Rest(buffer + (c + more))
  {
    assert buffer + (c + more) == (buffer + c) + more;
    LinesAppend(buffer + c, more);
    EmittedAppend(Lines(buffer + c), Lines(Rest(buffer + c) + more));
  }

  lemma HelloWorldLines(s: string)
    requires s == "hello world\nfoo\n"
    ensures Lines(s) == ["hello world", "foo"] && Rest(s) == []
  {
    var parts: seq<string> := ["hello world", "foo", []];
    assert Join(parts) == s;
    SplitJoin(parts);
  }

  /** A line cut across two reads is logged whole: "hello wor" then
      "ld\nfoo\n" give the lines "hello world" and "foo", and an empty buffer. */
  lemma LineSplitAcrossReads(chunks: seq<string>)
    requires chunks == ["hello wor", "ld\nfoo\n"]
    ensures RelayLines([], Chunks(chunks)) == ["hello world", "foo"]
    ensures RelayBuffer([], Chunks(chunks)) == []
  {
    var whole := "hello world\nfoo\n";
    assert Concat(chunks) == whole by {
      ChunksCons(chunks);
      ChunksCons(chunks[1..]);
      assert chunks[1..][1..] == [];
    }
    ChunkBoundariesInvisible([], chunks);
    assert [] + whole == whole;
    HelloWorldLines(whole);
    HelloWorldEmitted(["hello world", "foo"]);
  }

  lemma HelloWorldEmitted(lines: seq<string>)
    requires lines == ["hello world", "foo"]
    ensures Emitted(lines) == lines
  {
    assert Trimmed(lines[0]) && Trimmed(lines[1]);
    TrimmedLinesEmitted(lines);
  }
}
