/** controller.MinecraftConsole: the loop that echoes the server's console
    output and watches it for the shutdown message, and the command writer. */
module Console {
  import opened Outcomes
  import opened JavaText
  import opened Lines

  /** The console message that tells the server is shutting down. */
  const STOP_SENTINEL := "Stopping the server"

  /** The running flag after one console line: a line holding the sentinel
      clears it, any other line leaves it as it was. */
  function AfterLine(running: bool, line: string): (r: bool)
    ensures r <==> running && !Contains(line, STOP_SENTINEL)
  {
    if Contains(line, STOP_SENTINEL) then false else running
  }

  /** The running flag after the lines, taken one at a time in order. */
  function RunningAfter(running: bool, lines: seq<string>): bool {
    if lines == [] then running
    else AfterLine(RunningAfter(running, lines[..|lines| - 1]), lines[|lines| - 1])
  }

  /** No line holds the sentinel. */
  predicate NoSentinel(lines: seq<string>) {
    forall i :: 0 <= i < |lines| ==> !Contains(lines[i], STOP_SENTINEL)
  }

  /** Over a whole sequence of lines, the flag stays set exactly when it was set
      to begin with and no line holds the sentinel. */
  lemma {:induction false} RunningAfterMeaning(running: bool, lines: seq<string>)
    ensures RunningAfter(running, lines) <==> running && NoSentinel(lines)
  {
    if lines != [] {
      var front := lines[..|lines| - 1];
      RunningAfterMeaning(running, front);
      assert forall i :: 0 <= i < |front| ==> front[i] == lines[i];
    }
  }

  /** Once cleared, no later line sets the flag again. */
  lemma {:induction false} StoppedStaysStopped(lines: seq<string>)
    ensures !RunningAfter(false, lines)
  {
    if lines != [] {
      StoppedStaysStopped(lines[..|lines| - 1]);
    }
  }

  /** Reading a then b is reading a, then reading b from the flag a left. */
  lemma {:induction false} RunningAfterConcat(running: bool, a: seq<string>, b: seq<string>)
    ensures RunningAfter(running, a + b) == RunningAfter(RunningAfter(running, a), b)
  {
    if b == [] {
      assert a + b == a;
    } else {
      var front := b[..|b| - 1];
      assert (a + b)[..|a + b| - 1] == a + front;
      assert (a + b)[|a + b| - 1] == b[|b| - 1];
      RunningAfterConcat(running, a, front);
    }
  }

  /** The sentinel is found wherever it stands inside a line. */
  lemma SentinelInsideLine(before: string, after: string)
    ensures Contains(before + STOP_SENTINEL + after, STOP_SENTINEL)
  {
    var s := before + STOP_SENTINEL + after;
    assert s[|before|..|before| + |STOP_SENTINEL|] == STOP_SENTINEL;
    assert OccursAt(s, STOP_SENTINEL, |before|);
  }

  /** A text that lacks the first character of t does not contain t. */
  lemma FirstCharacterMissing(s: string, t: string)
    requires t != [] && t[0] !in s
    ensures !Contains(s, t)
  {
    forall i | 0 <= i && i + |t| <= |s|
      ensures !OccursAt(s, t, i)
    {
      assert s[i..i + |t|][0] == s[i];
    }
  }

  /** The server's usual shutdown line stops the flag. */
  lemma ShutdownLineStops()
    ensures !AfterLine(true, "[INFO] Stopping the server...")
  {
    var s := "[INFO] Stopping the server...";
    assert forall j :: 0 <= j < |STOP_SENTINEL| ==> s[7..26][j] == STOP_SENTINEL[j];
    assert OccursAt(s, STOP_SENTINEL, 7);
  }

  /** The test is case-sensitive: a lower-case "stopping" does not stop the flag. */
  lemma LowerCaseLineIgnored()
    ensures AfterLine(true, "[INFO] stopping the server...")
  {
    var s := "[INFO] stopping the server...";
    assert forall j :: 0 <= j < |s| ==> s[j] != 'S';
    FirstCharacterMissing(s, STOP_SENTINEL);
  }

  /** How the server's output stream ends once its lines are used up: readLine
      returns null, or it throws an IOException. */
  datatype StreamEnd = EndOfInput | Broken

  /** Why run returned. */
  datatype RunExit = EndOfStream | Interrupted | ReadFailed

  /** The number of lines a run reads, when the interrupt is first seen at the
      loop check numbered cancelAt (counting from 0): none from a reader that
      is already closed, otherwise lines until the interrupt is seen or the
      stream has no more. */
  function LinesRead(cancelAt: nat, closed: bool, available: nat): (n: nat)
    ensures n <= available && n <= cancelAt
    ensures closed ==> n == 0
  {
    if closed then 0 else if cancelAt <= available then cancelAt else available
  }

  /** Why a run returns, under the same assumptions as LinesRead. */
  function RunExitOf(cancelAt: nat, closed: bool, available: nat, end: StreamEnd): (e: RunExit)
    ensures e == Interrupted <==> cancelAt == LinesRead(cancelAt, closed, available)
    ensures e == EndOfStream <==> !closed && end == EndOfInput && available < cancelAt
    ensures e == ReadFailed <==> 0 < cancelAt && (closed || (end.Broken? && available < cancelAt))
  {
    if cancelAt == 0 then Interrupted
    else if closed then ReadFailed
    else if cancelAt <= available then Interrupted
    else if end == EndOfInput then EndOfStream
    else ReadFailed
  }

  /** Server.isServerRunning, the flag the console clears on shutdown. */
  class Server {
    var isServerRunning: bool

    constructor(running: bool)
      ensures isServerRunning == running
    {
      isServerRunning := running;
    }
  }

  /** The console of one server process: its output stream read line by line,
      its input stream written command by command, and standard output as log. */
  class MinecraftConsole {
    const server: Server
    /** Lines the server's output stream still holds. */
    var pending: seq<string>
    /** What the output stream does once pending is used up. */
    const streamEnd: StreamEnd
    var readerClosed: bool
    /** Lines printed to standard output, oldest first. */
    var log: seq<string>
    /** Text that has reached the server's input stream. */
    var written: string
    /** Whether writing to or flushing the server's input stream throws. */
    const writerBroken: bool
    /** The commands sent so far. */
    ghost var sentCommands: seq<string>

    /** The server's input holds each command sent, one per line, in order. */
    ghost predicate Valid()
      reads this
    {
      written == Terminated(sentCommands)
    }

    constructor(server: Server, output: seq<string>, streamEnd: StreamEnd, writerBroken: bool)
      ensures this.server == server && pending == output && this.streamEnd == streamEnd
      ensures !readerClosed && log == [] && written == "" && this.writerBroken == writerBroken
      ensures sentCommands == [] && Valid()
    {
      this.server := server;
      pending := output;
      this.streamEnd := streamEnd;
      readerClosed := false;
      log := [];
      written := "";
      this.writerBroken := writerBroken;
      sentCommands := [];
    }

    /** BufferedReader.readLine: the next line, None at the end of the stream,
        or an IOException when the reader is closed or the stream breaks. */
    method ReadLine() returns (r: Result<Option<string>, Exception>)
      modifies this`pending
      ensures readerClosed ==> r == Err(IOFailure) && pending == old(pending)
      ensures !readerClosed && old(pending) == [] ==>
                pending == [] && r == if streamEnd == EndOfInput then Ok(None) else Err(IOFailure)
      ensures !readerClosed && old(pending) != [] ==>
                r == Ok(Some(old(pending)[0])) && pending == old(pending)[1..]
    {
      if readerClosed {
        r := Err(IOFailure);
      } else if pending == [] {
        r := if streamEnd == EndOfInput then Ok(None) else Err(IOFailure);
      } else {
        r := Ok(Some(pending[0]));
        pending := pending[1..];
      }
    }

    /** run: echo every line the server prints and clear the running flag when
        one of them holds the sentinel, until the interrupt is seen (at loop
        check number cancelAt), the stream ends or a read throws; the reader is
        closed on every way out. */
    method Run(cancelAt: nat) returns (exit: RunExit)
      modifies this`pending, this`readerClosed, this`log, server`isServerRunning
      ensures exit == RunExitOf(cancelAt, old(readerClosed), |old(pending)|, streamEnd)
      ensures var n := LinesRead(cancelAt, old(readerClosed), |old(pending)|);
              pending == old(pending)[n..] &&
              log == old(log) + old(pending)[..n] &&
              server.isServerRunning == RunningAfter(old(server.isServerRunning), old(pending)[..n])
      ensures readerClosed
    {
      var read := 0;
      while read < cancelAt
        invariant read <= cancelAt && read <= |old(pending)|
        invariant readerClosed == old(readerClosed)
        invariant old(readerClosed) ==> read == 0
        invariant pending == old(pending)[read..]
        invariant log == old(log) + old(pending)[..read]
        invariant server.isServerRunning == RunningAfter(old(server.isServerRunning), old(pending)[..read])
        decreases cancelAt - read
      {
        var next := ReadLine();
        match next {
          case Err(_) =>
            readerClosed := true;
            return ReadFailed;
          case Ok(None) =>
            readerClosed := true;
            return EndOfStream;
          case Ok(Some(line)) =>
            assert old(pending)[..read + 1] == old(pending)[..read] + [line];
            log := log + [line];
            if Contains(line, STOP_SENTINEL) {
              server.isServerRunning := false;
            }
            read := read + 1;
        }
      }
      readerClosed := true;
      exit := Interrupted;
    }

    /** sendCommand: log the command, then write it and one line terminator to
        the server's input and flush; a failing write surfaces as an unchecked
        exception. */
    method SendCommand(command: string) returns (r: Outcome<Exception>)
      requires Valid()
      modifies this`log, this`written, this`sentCommands
      ensures Valid()
      ensures log == old(log) + ["Sending command: " + command]
      ensures writerBroken ==>
                r == Fail(UncheckedIO) && written == old(written) && sentCommands == old(sentCommands)
      ensures !writerBroken ==>
                r == Pass && written == old(written) + command + "\n" &&
                sentCommands == old(sentCommands) + [command]
    {
      log := log + ["Sending command: " + command];
      if writerBroken {
        r := Fail(UncheckedIO);
      } else {
        TerminatedAppend(sentCommands, command);
        written := written + command + "\n";
        sentCommands := sentCommands + [command];
        r := Pass;
      }
    }
  }
}
