/** Line-oriented text: what `String.format("%s%n", x)` produces line by line
    (with the line separator taken to be "\n"), and how Files.readAllLines and
    BufferedReader.readLine cut text back into lines. */
module Lines {

  predicate IsLineBreak(ch: char) {
    ch == '\n' || ch == '\r'
  }

  predicate NoLineBreak(s: string) {
    forall i :: 0 <= i < |s| ==> !IsLineBreak(s[i])
  }

  /** Every line followed by one line terminator, concatenated in order. */
  function Terminated(lines: seq<string>): string {
    if lines == [] then "" else lines[0] + "\n" + Terminated(lines[1..])
  }

  /** Writing one more line appends exactly that line and one terminator. */
  lemma {:induction false} TerminatedAppend(lines: seq<string>, line: string)
    ensures Terminated(lines + [line]) == Terminated(lines) + line + "\n"
  {
    if lines == [] {
      assert [] + [line] == [line];
    } else {
      assert (lines + [line])[1..] == lines[1..] + [line];
      TerminatedAppend(lines[1..], line);
    }
  }

  /** Length of the first line of t: the position of its first line break, or |t|. */
  function LineEnd(t: string): (n: nat)
    ensures n <= |t|
    ensures n < |t| ==> IsLineBreak(t[n])
    ensures NoLineBreak(t[..n])
  {
    if t == [] || IsLineBreak(t[0]) then 0
    else
      var n := 1 + LineEnd(t[1..]);
      assert forall j :: 1 <= j < n ==> t[..n][j] == t[1..][..n - 1][j - 1];
      n
  }

  /** The lines of t: a line ends at "\n", "\r" or "\r\n", and a terminator at
      the very end does not start another (empty) line. */
  function ReadLines(t: string): seq<string>
    decreases |t|
  {
    if t == [] then []
    else
      var n := LineEnd(t);
      if n == |t| then [t]
      else if t[n] == '\r' && n + 1 < |t| && t[n + 1] == '\n' then [t[..n]] + ReadLines(t[n + 2..])
      else [t[..n]] + ReadLines(t[n + 1..])
  }

  /** A line without breaks, then "\n": the first line ends right before the "\n". */
  lemma FirstLineEnd(line: string, rest: string)
    requires NoLineBreak(line)
    ensures LineEnd(line + "\n" + rest) == |line|
  {
    var t := line + "\n" + rest;
    assert t[|line|] == '\n';
  }

  /** Reading back what was written line by line gives the same lines, as long
      as no line itself holds a line break. */
  lemma {:induction false} ReadLinesOfTerminated(lines: seq<string>)
    requires forall i :: 0 <= i < |lines| ==> NoLineBreak(lines[i])
    ensures ReadLines(Terminated(lines)) == lines
  {
    if lines != [] {
      var line, rest := lines[0], Terminated(lines[1..]);
      var t := Terminated(lines);
      assert t == line + "\n" + rest;
      FirstLineEnd(line, rest);
      assert t[..|line|] == line;
      assert t[|line| + 1..] == rest;
      ReadLinesOfTerminated(lines[1..]);
    }
  }

  /** Why the round trip needs break-free lines: a carriage return inside one
      line comes back as two lines. */
  lemma CarriageReturnSplitsLine()
    ensures ReadLines(Terminated(["a\rb"])) == ["a", "b"]
  {
    var t := Terminated(["a\rb"]);
    assert t == "a\rb\n";
    var u := t[2..];
    assert u == "b\n";
    assert LineEnd(u) == 1;
    assert ReadLines(u) == [u[..1]] + ReadLines(u[2..]);
    assert u[..1] == "b" && u[2..] == "";
    assert LineEnd(t) == 1;
    assert ReadLines(t) == [t[..1]] + ReadLines(u);
    assert t[..1] == "a";
  }
}
