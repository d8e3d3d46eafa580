/** Cutting text into lines, and writing lines out. */
module Lines {
  import opened Texts

  /** The line boundaries of Python's `str.splitlines`. */
  predicate IsLineBreak(c: char) {
    c == '\n' || c == '\r' || c == '\U{0B}' || c == '\U{0C}' || '\U{1C}' <= c <= '\U{1E}' || c == '\U{85}'
    || c == '\U{2028}' || c == '\U{2029}'
  }

  /** Where a line may end: at every boundary of Python's `str.splitlines`, where a Python file opened in
      text mode ends one, or at a line feed alone. */
  datatype LineEnds = Unicode | TextMode | Feed

  predicate EndsLine(ends: LineEnds, c: char) {
    match ends
    case Unicode => IsLineBreak(c)
    case TextMode => c == '\n' || c == '\r'
    case Feed => c == '\n'
  }

  /** Where the first break of `text` is, or its length. */
  function FirstBreak(text: string, ends: LineEnds): (n: nat)
    ensures n <= |text|
    ensures forall i :: 0 <= i < n ==> !EndsLine(ends, text[i])
    ensures n < |text| ==> EndsLine(ends, text[n])
  {
    if text == "" || EndsLine(ends, text[0]) then 0 else 1 + FirstBreak(text[1..], ends)
  }

  /** What follows the line end at `n`; `\r\n` is one end. */
  function AfterBreak(text: string, n: nat): string
    requires n < |text|
  {
    if StartsWith(text[n..], "\r\n") then text[n + 2..] else text[n + 1..]
  }

  /** Lines without their ends; a final line without an end still counts. */
  function SplitLines(text: string, ends: LineEnds): seq<string>
    decreases |text|
  {
    if text == "" then []
    else
      var n := FirstBreak(text, ends);
      if n == |text| then [text] else [text[..n]] + SplitLines(AfterBreak(text, n), ends)
  }

  lemma {:induction false} LinesHoldNoBreak(text: string, ends: LineEnds)
    ensures forall line, c :: line in SplitLines(text, ends) && c in line ==> !EndsLine(ends, c)
    decreases |text|
  {
    hide EndsLine, StartsWith;
    if text != "" {
      var n := FirstBreak(text, ends);
      forall c | c in text[..n] ensures !EndsLine(ends, c) {}
      if n < |text| {
        assert |AfterBreak(text, n)| < |text| by { AfterBreakIsShorter(text, n); }
        LinesHoldNoBreak(AfterBreak(text, n), ends);
        assert SplitLines(text, ends) == [text[..n]] + SplitLines(AfterBreak(text, n), ends);
      }
    }
  }

  lemma AfterBreakIsShorter(text: string, n: nat)
    requires n < |text|
    ensures |AfterBreak(text, n)| < |text|
  {
  }

  lemma BreakAfterLine(line: string, rest: string, ends: LineEnds)
    requires forall c :: c in line ==> !EndsLine(ends, c)
    ensures FirstBreak(line + "\n" + rest, ends) == |line|
  {
    var text := line + "\n" + rest;
    var n := FirstBreak(text, ends);
    assert text[|line|] == '\n';
    forall i | 0 <= i < |line| ensures !EndsLine(ends, text[i]) {
      assert text[i] == line[i] && line[i] in line;
    }
  }

  lemma FirstLineIsCutOff(line: string, rest: string, ends: LineEnds)
    requires forall c :: c in line ==> !EndsLine(ends, c)
    ensures SplitLines(line + "\n" + rest, ends) == [line] + SplitLines(rest, ends)
  {
    BreakAfterLine(line, rest, ends);
    var text := line + "\n" + rest;
    var n := |line|;
    assert text[n..] == ['\n'] + rest;
    assert text[n..][0] == '\n' != "\r\n"[0];
    assert text[..n] == line;
    assert text[n + 1..] == rest;
  }

  lemma EmptyHasNoLines(ends: LineEnds)
    ensures SplitLines("", ends) == []
  {
  }

  // ----- writing lines

  /** Every line with its line feed. */
  function Unlines(lines: seq<string>): string {
    if lines == [] then "" else lines[0] + "\n" + Unlines(lines[1..])
  }

  lemma {:induction false} UnlinesConcatenates(a: seq<string>, b: seq<string>)
    ensures Unlines(a + b) == Unlines(a) + Unlines(b)
  {
    if a == [] {
      assert a + b == b;
    } else {
      UnlinesConcatenates(a[1..], b);
      assert (a + b)[1..] == a[1..] + b;
    }
  }

  /** Lines that hold no line end are read back one for one. */
  lemma {:induction false} WrittenLinesAreCut(lines: seq<string>, ends: LineEnds)
    requires forall line, c :: line in lines && c in line ==> !EndsLine(ends, c)
    ensures SplitLines(Unlines(lines), ends) == lines
  {
    hide SplitLines, EndsLine;
    if lines == [] {
      EmptyHasNoLines(ends);
    } else {
      FirstLineIsCutOff(lines[0], Unlines(lines[1..]), ends);
      WrittenLinesAreCut(lines[1..], ends);
    }
  }
}
