/** The environment file that holds the key on the systemd layout: how `init` rewrites it, and how systemd
    reads it (`merge_environment_file` in agents/common/pessimal_agent_core/src/onboarding.rs). */
module EnvironmentFile {
  import opened Texts
  import opened Lines

  const NAME := "PESSIMAL_API_KEY"
  const ASSIGNMENT := "PESSIMAL_API_KEY="

  // ----- rewriting

  function WithoutReturn(line: string): string {
    if EndsWith(line, "\r") then line[..|line| - 1] else line
  }

  /** Rust's `str::lines`: a carriage return goes with the line feed after it, and stays where there is none. */
  function LinesOf(text: string): seq<string>
    decreases |text|
  {
    if text == "" then []
    else
      var n := FirstBreak(text, Feed);
      if n == |text| then [text] else [WithoutReturn(text[..n])] + LinesOf(text[n + 1..])
  }

  /** A line that the rewriter takes for the key's. */
  predicate IsKeyLine(line: string) {
    StartsWith(TrimStart(line), ASSIGNMENT)
  }

  predicate HasKeyLine(lines: seq<string>) {
    exists i :: 0 <= i < |lines| && IsKeyLine(lines[i])
  }

  function Replaced(line: string, key: string): string {
    if IsKeyLine(line) then ASSIGNMENT + key else line
  }

  function ReplacedAll(lines: seq<string>, key: string): (r: seq<string>)
    ensures |r| == |lines|
  {
    seq(|lines|, i requires 0 <= i < |lines| => Replaced(lines[i], key))
  }

  /** Every key line carries the new key; one is added if there was none. */
  function Merged(lines: seq<string>, key: string): (r: seq<string>)
    ensures r != []
  {
    if HasKeyLine(lines) then ReplacedAll(lines, key) else lines + [ASSIGNMENT + key]
  }

  function MergedText(existing: string, key: string): string {
    Unlines(Merged(LinesOf(existing), key))
  }

  function Joined(lines: seq<string>): string {
    if lines == [] then "" else if |lines| == 1 then lines[0] else lines[0] + "\n" + Joined(lines[1..])
  }

  lemma {:induction false} JoinedIsUnlined(lines: seq<string>)
    requires lines != []
    ensures Joined(lines) + "\n" == Unlines(lines)
  {
    if |lines| > 1 {
      JoinedIsUnlined(lines[1..]);
    } else {
      assert lines[1..] == [];
    }
  }

  /** `merge_environment_file` */
  method MergeEnvironmentFile(existing: string, key: string) returns (out: string)
    ensures out == MergedText(existing, key)
  {
    hide IsKeyLine, LinesOf, Unlines, Joined;
    var all := LinesOf(existing);
    var lines: seq<string> := [];
    var replaced := false;
    var i := 0;
    while i < |all|
      invariant 0 <= i <= |all|
      invariant lines == ReplacedAll(all[..i], key)
      invariant replaced <==> HasKeyLine(all[..i])
    {
      if IsKeyLine(all[i]) {
        lines := lines + [ASSIGNMENT + key];
        replaced := true;
        assert IsKeyLine(all[..i + 1][i]);
      } else {
        lines := lines + [all[i]];
        assert HasKeyLine(all[..i]) <==> HasKeyLine(all[..i + 1]) by { OneOtherLine(all, i); }
      }
      i := i + 1;
    }
    assert all[..i] == all;
    if !replaced {
      NothingToReplace(all, key);
      lines := lines + [ASSIGNMENT + key];
    }
    JoinedIsUnlined(lines);
    out := Joined(lines) + "\n";
  }

  lemma OneOtherLine(lines: seq<string>, i: nat)
    requires i < |lines| && !IsKeyLine(lines[i])
    ensures HasKeyLine(lines[..i]) <==> HasKeyLine(lines[..i + 1])
  {
    hide IsKeyLine;
    if j :| 0 <= j < i && IsKeyLine(lines[j]) {
      assert IsKeyLine(lines[..i][j]) && IsKeyLine(lines[..i + 1][j]);
    }
  }

  lemma NothingToReplace(lines: seq<string>, key: string)
    requires !HasKeyLine(lines)
    ensures ReplacedAll(lines, key) == lines
  {
    hide IsKeyLine;
  }

  // ----- what a rewrite keeps

  /** The lines that are not the key's. */
  function Others(lines: seq<string>): seq<string> {
    if lines == [] then []
    else (if IsKeyLine(lines[0]) then [] else [lines[0]]) + Others(lines[1..])
  }

  lemma WrittenKeyIsAKeyLine(key: string)
    ensures IsKeyLine(ASSIGNMENT + key)
  {
    assert (ASSIGNMENT + key)[0] == 'P';
    assert (ASSIGNMENT + key)[..|ASSIGNMENT|] == ASSIGNMENT;
  }

  lemma {:induction false} ReplacingKeepsOthers(lines: seq<string>, key: string)
    ensures Others(ReplacedAll(lines, key)) == Others(lines)
  {
    hide IsKeyLine;
    if lines != [] {
      WrittenKeyIsAKeyLine(key);
      ReplacingKeepsOthers(lines[1..], key);
      assert ReplacedAll(lines, key)[1..] == ReplacedAll(lines[1..], key);
    }
  }

  lemma {:induction false} AKeyLineIsNoOther(lines: seq<string>, line: string)
    requires IsKeyLine(line)
    ensures Others(lines + [line]) == Others(lines)
  {
    hide IsKeyLine;
    if lines == [] {
      assert [line][1..] == [];
    } else {
      AKeyLineIsNoOther(lines[1..], line);
      assert (lines + [line])[1..] == lines[1..] + [line];
    }
  }

  /** A rewrite keeps every other line, in order; there is a key line, and all key lines hold the new key. */
  lemma OthersStayInOrder(existing: string, key: string)
    ensures Others(Merged(LinesOf(existing), key)) == Others(LinesOf(existing))
    ensures HasKeyLine(Merged(LinesOf(existing), key))
    ensures forall line :: line in Merged(LinesOf(existing), key) && IsKeyLine(line) ==> line == ASSIGNMENT + key
  {
    hide IsKeyLine, LinesOf;
    var lines := LinesOf(existing);
    WrittenKeyIsAKeyLine(key);
    if HasKeyLine(lines) {
      ReplacingKeepsOthers(lines, key);
      var i :| 0 <= i < |lines| && IsKeyLine(lines[i]);
      assert IsKeyLine(Merged(lines, key)[i]);
    } else {
      AKeyLineIsNoOther(lines, ASSIGNMENT + key);
      assert IsKeyLine(Merged(lines, key)[|lines|]);
    }
  }

  // ----- rewriting twice

  predicate HoldNoFeed(lines: seq<string>) {
    forall line :: line in lines ==> '\n' !in line
  }

  function WithoutReturns(lines: seq<string>): (r: seq<string>)
    ensures |r| == |lines|
  {
    seq(|lines|, i requires 0 <= i < |lines| => WithoutReturn(lines[i]))
  }

  lemma {:induction false} WrittenLinesAreRead(lines: seq<string>)
    requires HoldNoFeed(lines)
    ensures LinesOf(Unlines(lines)) == WithoutReturns(lines)
  {
    hide WithoutReturn;
    if lines != [] {
      var line, rest := lines[0], Unlines(lines[1..]);
      BreakAfterLine(line, rest, Feed);
      var text := line + "\n" + rest;
      assert text[..|line|] == line && text[|line| + 1..] == rest;
      WrittenLinesAreRead(lines[1..]);
      assert WithoutReturns(lines) == [WithoutReturn(line)] + WithoutReturns(lines[1..]);
    }
  }

  lemma FirstLineHoldsNoFeed(text: string)
    ensures '\n' !in text[..FirstBreak(text, Feed)]
    ensures '\n' !in WithoutReturn(text[..FirstBreak(text, Feed)])
  {
    hide FirstBreak;
    var line := text[..FirstBreak(text, Feed)];
    forall i | 0 <= i < |line| ensures line[i] != '\n' {
      assert !EndsLine(Feed, text[i]);
    }
  }

  lemma {:induction false} LinesHoldNoFeed(text: string)
    ensures HoldNoFeed(LinesOf(text))
    decreases |text|
  {
    hide FirstBreak, WithoutReturn;
    if text != "" {
      var n := FirstBreak(text, Feed);
      FirstLineHoldsNoFeed(text);
      if n < |text| {
        LinesHoldNoFeed(text[n + 1..]);
      } else {
        assert text[..n] == text;
      }
    }
  }

  lemma MergedHoldsNoFeed(existing: string, key: string)
    requires '\n' !in key
    ensures HoldNoFeed(Merged(LinesOf(existing), key))
  {
    hide IsKeyLine, LinesOf;
    LinesHoldNoFeed(existing);
  }

  lemma {:induction false} TrimStartBefore(line: string, end: char)
    requires IsWhiteSpace(end)
    ensures StartsWith(TrimStart(line + [end]), ASSIGNMENT) <==> StartsWith(TrimStart(line), ASSIGNMENT)
  {
    var text := line + [end];
    if line == "" {
      assert TrimStart(text) == "" by { assert text[1..] == ""; }
    } else if IsWhiteSpace(line[0]) {
      assert text[1..] == line[1..] + [end];
      TrimStartBefore(line[1..], end);
    } else {
      assert TrimStart(text) == text && TrimStart(line) == line;
      EndIsNotMatched(line, end);
    }
  }

  lemma EndIsNotMatched(line: string, end: char)
    requires end != '='
    ensures StartsWith(line + [end], ASSIGNMENT) <==> StartsWith(line, ASSIGNMENT)
  {
    var text, n := line + [end], |ASSIGNMENT|;
    if |line| >= n {
      assert text[..n] == line[..n];
    } else if |line| + 1 == n {
      assert text[..n][n - 1] == end && ASSIGNMENT[n - 1] == '=';
    }
  }

  lemma ReturnDoesNotMatter(line: string)
    ensures IsKeyLine(WithoutReturn(line)) <==> IsKeyLine(line)
  {
    hide StartsWith, TrimStart;
    if EndsWith(line, "\r") {
      assert line == line[..|line| - 1] + ['\r'];
      TrimStartBefore(line[..|line| - 1], '\r');
    }
  }

  lemma UnlinesIsInjective(a: seq<string>, b: seq<string>)
    requires HoldNoFeed(a) && HoldNoFeed(b) && Unlines(a) == Unlines(b)
    ensures a == b
  {
    WrittenLinesAreCut(a, Feed);
    WrittenLinesAreCut(b, Feed);
  }

  /** No line that a rewrite keeps ends in a carriage return. */
  predicate KeepsNoReturn(lines: seq<string>) {
    forall i :: 0 <= i < |lines| && !IsKeyLine(lines[i]) ==> WithoutReturn(lines[i]) == lines[i]
  }

  /** What is read of a file rewritten with one key, rewritten with another. */
  lemma MergedTwice(lines: seq<string>, first: string, second: string)
    ensures var twice := Merged(WithoutReturns(Merged(lines, first)), second);
      |twice| == |Merged(lines, second)|
      && forall i :: 0 <= i < |twice| ==>
        twice[i] == if i < |lines| && !IsKeyLine(lines[i]) then WithoutReturn(lines[i]) else ASSIGNMENT + second
    ensures forall i :: 0 <= i < |Merged(lines, second)| ==>
      Merged(lines, second)[i] == if i < |lines| && !IsKeyLine(lines[i]) then lines[i] else ASSIGNMENT + second
  {
    hide IsKeyLine, WithoutReturn;
    var once := Merged(lines, first);
    var read := WithoutReturns(once);
    forall i | 0 <= i < |read| ensures IsKeyLine(read[i]) <==> i == |lines| || IsKeyLine(lines[i]) {
      WrittenKeyIsAKeyLine(first);
      ReturnDoesNotMatter(once[i]);
    }
    if HasKeyLine(lines) {
      var i :| 0 <= i < |lines| && IsKeyLine(lines[i]);
      assert IsKeyLine(read[i]);
    } else {
      assert IsKeyLine(read[|lines|]);
    }
  }

  /** Rewriting with a second key is the same as never having rewritten with the first -- so rewriting
      with the same key again changes nothing -- exactly when no line it keeps ends in a carriage return. */
  lemma SecondKeyReplacesTheFirst(existing: string, first: string, second: string)
    requires '\n' !in first && '\n' !in second
    ensures MergedText(MergedText(existing, first), second) == MergedText(existing, second)
      <==> KeepsNoReturn(LinesOf(existing))
  {
    hide IsKeyLine, WithoutReturn, LinesOf, Merged, Unlines;
    var lines := LinesOf(existing);
    MergedHoldsNoFeed(existing, first);
    MergedHoldsNoFeed(existing, second);
    MergedHoldsNoFeed(MergedText(existing, first), second);
    WrittenLinesAreRead(Merged(lines, first));
    MergedTwice(lines, first, second);
    var twice, once := Merged(WithoutReturns(Merged(lines, first)), second), Merged(lines, second);
    if Unlines(twice) == Unlines(once) {
      UnlinesIsInjective(twice, once);
      forall i | 0 <= i < |lines| && !IsKeyLine(lines[i]) ensures WithoutReturn(lines[i]) == lines[i] {
        assert i < |once| by { MergedIsNoShorter(lines, second); }
      }
    }
    if KeepsNoReturn(lines) {
      forall i | 0 <= i < |twice| ensures twice[i] == once[i] {}
      assert twice == once;
    }
  }

  lemma MergedIsNoShorter(lines: seq<string>, key: string)
    ensures |Merged(lines, key)| >= |lines|
  {
    hide IsKeyLine;
  }

  /** A file whose last line ends in a lone carriage return: the second rewrite drops it. */
  lemma LoneReturnIsLost(key: string)
    requires '\n' !in key
    ensures MergedText(MergedText("A\r", key), key) != MergedText("A\r", key)
  {
    hide LinesOf, MergedText;
    LoneReturnIsKept();
    SecondKeyReplacesTheFirst("A\r", key, key);
    assert LinesOf("A\r")[0] == "A\r";
  }

  lemma LoneReturnIsKept()
    ensures LinesOf("A\r") == ["A\r"] && !IsKeyLine("A\r") && WithoutReturn("A\r") != "A\r"
  {
    var text := "A\r";
    BreakBefore(text);
    assert TrimStart(text) == text && text[1..] == "\r";
  }

  lemma BreakBefore(text: string)
    requires '\n' !in text
    ensures FirstBreak(text, Feed) == |text|
  {
  }

  // ----- reading

  /** The white space that systemd strips. */
  predicate IsBlank(c: char) {
    c == ' ' || c == '\t' || c == '\r' || c == '\n'
  }

  function StripStart(text: string): (r: string)
    ensures r != "" ==> !IsBlank(r[0])
  {
    if text != "" && IsBlank(text[0]) then StripStart(text[1..]) else text
  }

  function StripEnd(text: string): (r: string)
    ensures r <= text
    ensures text != "" && !IsBlank(text[0]) ==> r != ""
  {
    if text != "" && IsBlank(text[|text| - 1]) then StripEnd(text[..|text| - 1]) else text
  }

  function FirstEquals(text: string): (n: nat)
    ensures n <= |text|
    ensures forall i :: 0 <= i < n ==> text[i] != '='
    ensures n < |text| ==> text[n] == '='
  {
    if text == "" || text[0] == '=' then 0 else 1 + FirstEquals(text[1..])
  }

  datatype Assignment = Assignment(name: string, value: string)

  /** What a line in plain KEY=VALUE form assigns; comments and lines without `=` assign nothing. */
  function Assigned(line: string): Option<Assignment> {
    var text := StripEnd(StripStart(line));
    var n := FirstEquals(text);
    if text == "" || text[0] == '#' || text[0] == ';' || n == |text| then None
    else Some(Assignment(StripEnd(text[..n]), StripStart(text[n + 1..])))
  }

  /** The variables of a file: the last assignment of a name wins. */
  function ReadAll(lines: seq<string>): map<string, string> {
    if lines == [] then map[]
    else
      var before := ReadAll(lines[..|lines| - 1]);
      match Assigned(lines[|lines| - 1])
      case None => before
      case Some(a) => before[a.name := a.value]
  }

  function ReadEnvironment(text: string): map<string, string> {
    ReadAll(SplitLines(text, Feed))
  }

  /** A key that stands in a line as itself: on one line, not empty, without blanks at its ends, and with
      nothing systemd would take for quoting. */
  predicate IsPlainKey(key: string) {
    key != "" && '\n' !in key && !IsBlank(key[0]) && !IsBlank(key[|key| - 1])
    && '"' !in key && '\'' !in key && '\\' !in key
  }

  lemma NothingToStrip(text: string)
    requires text != "" && !IsBlank(text[0]) && !IsBlank(text[|text| - 1])
    ensures StripStart(text) == text && StripEnd(text) == text
  {
  }

  lemma FirstEqualsIs(text: string, n: nat)
    requires n < |text| && text[n] == '=' && forall i :: 0 <= i < n ==> text[i] != '='
    ensures FirstEquals(text) == n
  {
    var found := FirstEquals(text);
    assert found < |text| ==> text[found] == '=';
  }

  lemma NameHoldsNoEquals()
    ensures forall i :: 0 <= i < |NAME| ==> NAME[i] != '='
  {
  }

  lemma KeyLineIsRead(key: string)
    requires IsPlainKey(key)
    ensures Assigned(ASSIGNMENT + key) == Some(Assignment(NAME, key))
  {
    hide StripStart, StripEnd, FirstEquals;
    var line := ASSIGNMENT + key;
    assert line[|line| - 1] == key[|key| - 1] && line[0] == 'P';
    NothingToStrip(line);
    NothingToStrip(key);
    NothingToStrip(NAME);
    NameHoldsNoEquals();
    assert line[..|NAME|] == NAME && line[|NAME|] == '=' && line[|NAME| + 1..] == key;
    forall i | 0 <= i < |NAME| ensures line[i] != '=' {
      assert line[i] == line[..|NAME|][i];
    }
    FirstEqualsIs(line, |NAME|);
  }

  /** Whether the last line that either the rewriter or the reader takes for the key's is the rewriter's,
      or gives the same key anyway. */
  predicate KeyLineIsLast(lines: seq<string>, key: string) {
    lines != []
    && var last := lines[|lines| - 1];
       IsKeyLine(last)
       || if Assigned(last).Some? && Assigned(last).value.name == NAME then Assigned(last).value.value == key
          else KeyLineIsLast(lines[..|lines| - 1], key)
  }

  lemma {:induction false} ReplacedKeyIsRead(lines: seq<string>, key: string)
    requires IsPlainKey(key)
    ensures var env := ReadAll(ReplacedAll(lines, key));
      (NAME in env && env[NAME] == key) <==> KeyLineIsLast(lines, key)
  {
    hide IsKeyLine, Assigned;
    if lines != [] {
      var most := lines[..|lines| - 1];
      ReplacedKeyIsRead(most, key);
      var all := ReplacedAll(lines, key);
      assert all[..|all| - 1] == ReplacedAll(most, key);
      KeyLineIsRead(key);
    }
  }

  /** The rewritten file gives back the key exactly when there was no key line, so one was added at the
      end, or no line that only the reader takes for the key's comes after the last one. */
  lemma KeyIsRead(existing: string, key: string)
    requires IsPlainKey(key)
    ensures var lines := LinesOf(existing); var env := ReadEnvironment(MergedText(existing, key));
      (NAME in env && env[NAME] == key) <==> !HasKeyLine(lines) || KeyLineIsLast(lines, key)
  {
    hide IsKeyLine, Assigned, SplitLines, LinesOf, Unlines, KeyLineIsLast;
    var lines := LinesOf(existing);
    MergedHoldsNoFeed(existing, key);
    WrittenLinesAreCut(Merged(lines, key), Feed);
    if HasKeyLine(lines) {
      ReplacedKeyIsRead(lines, key);
    } else {
      assert (lines + [ASSIGNMENT + key])[..|lines|] == lines;
      KeyLineIsRead(key);
    }
  }

  /** `PESSIMAL_API_KEY=a`, and after it `PESSIMAL_API_KEY =x`. */
  const ODD_FILE := ASSIGNMENT + "a\n" + NAME + " =x\n"

  /** Where it is not: the line that only the reader takes for the key's comes after the key line. */
  lemma OtherSpellingCanWin(key: string)
    requires IsPlainKey(key) && key != "x"
    ensures var env := ReadEnvironment(MergedText(ODD_FILE, key));
      !(NAME in env && env[NAME] == key)
  {
    hide IsKeyLine, Assigned, LinesOf, MergedText, ReadEnvironment, IsPlainKey;
    OtherSpellingIsRead();
    OtherSpellingLines();
    LaterSpellingIsLast(LinesOf(ODD_FILE), key);
    KeyIsRead(ODD_FILE, key);
  }

  lemma OtherSpellingLines()
    ensures LinesOf(ODD_FILE) == [ASSIGNMENT + "a", NAME + " =x"]
  {
    hide LinesOf, WithoutReturn;
    var first, second := ASSIGNMENT + "a", NAME + " =x";
    NoReturn(first);
    NoReturn(second);
    TwoLines(first, second);
    assert "a" + "\n" == "a\n" && " =x" + "\n" == " =x\n";
    assert ODD_FILE == first + "\n" + second + "\n";
  }

  lemma NoReturn(line: string)
    requires '\r' !in line
    ensures WithoutReturn(line) == line
  {
    if line != "" {
      assert line[|line| - 1..][0] in line;
    }
  }

  lemma LaterSpellingIsLast(lines: seq<string>, key: string)
    requires lines == [ASSIGNMENT + "a", NAME + " =x"] && key != "x"
    requires !IsKeyLine(NAME + " =x") && Assigned(NAME + " =x") == Some(Assignment(NAME, "x"))
    ensures HasKeyLine(lines) && !KeyLineIsLast(lines, key)
  {
    hide IsKeyLine, Assigned;
    WrittenKeyIsAKeyLine("a");
    assert IsKeyLine(lines[0]);
  }

  lemma TwoLines(first: string, second: string)
    requires '\n' !in first && '\n' !in second && WithoutReturn(first) == first && WithoutReturn(second) == second
    ensures LinesOf(first + "\n" + second + "\n") == [first, second]
  {
    hide LinesOf, WithoutReturn;
    var lines := [first, second];
    assert lines[1..] == [second] && [second][1..] == [];
    assert Unlines([second]) == second + "\n";
    assert Unlines(lines) == first + "\n" + second + "\n";
    WrittenLinesAreRead(lines);
  }

  lemma OtherSpellingIsRead()
    ensures !IsKeyLine(NAME + " =x") && Assigned(NAME + " =x") == Some(Assignment(NAME, "x"))
  {
    hide StripStart, StripEnd, FirstEquals;
    var line, n := NAME + " =x", |NAME|;
    assert line[..n] == NAME && line[n] == ' ' && line[n + 1] == '=' && line[n + 2..] == "x";
    assert TrimStart(line) == line && line[..|ASSIGNMENT|][n] == ' ';
    NothingToStrip(line);
    NameHoldsNoEquals();
    forall i | 0 <= i < n + 1 ensures line[i] != '=' {
      assert i < n ==> line[i] == line[..n][i];
    }
    FirstEqualsIs(line, n + 1);
    assert line[..n + 1] == NAME + " ";
    NameIsStripped();
  }

  lemma NameIsStripped()
    ensures StripEnd(NAME + " ") == NAME && StripStart("x") == "x"
  {
    assert (NAME + " ")[..|NAME|] == NAME;
    NothingToStrip(NAME);
  }

  // ----- the two ways of cutting lines read alike

  lemma {:induction false} ReturnIsStripped(line: string)
    ensures StripEnd(StripStart(line + "\r")) == StripEnd(StripStart(line))
  {
    var text := line + "\r";
    if line == "" {
      assert text[1..] == "" && StripStart(text) == "";
    } else if IsBlank(line[0]) {
      assert text[1..] == line[1..] + "\r";
      ReturnIsStripped(line[1..]);
    } else {
      assert text[..|text| - 1] == line;
    }
  }

  lemma ReturnIsNotRead(line: string)
    ensures Assigned(WithoutReturn(line)) == Assigned(line)
  {
    hide StripEnd, StripStart;
    if EndsWith(line, "\r") {
      assert line == line[..|line| - 1] + "\r";
      ReturnIsStripped(line[..|line| - 1]);
    }
  }

  ghost predicate ReadAlike(a: seq<string>, b: seq<string>) {
    |a| == |b| && forall i :: 0 <= i < |a| ==> Assigned(a[i]) == Assigned(b[i])
  }

  lemma {:induction false} CutAlike(text: string)
    ensures ReadAlike(LinesOf(text), SplitLines(text, Feed))
    decreases |text|
  {
    hide Assigned, WithoutReturn;
    if text != "" {
      var n := FirstBreak(text, Feed);
      if n < |text| {
        assert text[n..][0] == '\n';
        assert AfterBreak(text, n) == text[n + 1..];
        CutAlike(text[n + 1..]);
        ReturnIsNotRead(text[..n]);
      }
    }
  }

  lemma {:induction false} AlikeReadTheSame(a: seq<string>, b: seq<string>)
    requires ReadAlike(a, b)
    ensures ReadAll(a) == ReadAll(b)
  {
    hide Assigned;
    if a != [] {
      AlikeReadTheSame(a[..|a| - 1], b[..|b| - 1]);
      assert Assigned(a[|a| - 1]) == Assigned(b[|b| - 1]);
    }
  }

  lemma BothReadersAgree(text: string)
    ensures ReadEnvironment(text) == ReadAll(LinesOf(text))
  {
    hide ReadAll, LinesOf, SplitLines;
    CutAlike(text);
    AlikeReadTheSame(LinesOf(text), SplitLines(text, Feed));
  }

  // ----- the other variables

  lemma {:induction false} StrippingKeepsTheKeyLine(line: string)
    requires IsKeyLine(line)
    ensures var text := StripStart(line);
      text != "" && (StartsWith(text, ASSIGNMENT) || (IsWhiteSpace(text[0]) && !IsBlank(text[0])))
  {
    if line != "" && IsBlank(line[0]) {
      assert IsWhiteSpace(line[0]);
      StrippingKeepsTheKeyLine(line[1..]);
    }
  }

  lemma AssignsTheKey(text: string)
    requires StartsWith(text, ASSIGNMENT) && |StripEnd(text)| > |NAME|
    ensures FirstEquals(StripEnd(text)) == |NAME| && StripEnd(StripEnd(text)[..|NAME|]) == NAME
  {
    hide FirstEquals, StripEnd;
    var t := StripEnd(text);
    assert t <= text;
    NameHoldsNoEquals();
    forall i | 0 <= i <= |NAME| ensures t[i] == ASSIGNMENT[i] {
      assert t[i] == text[i] == text[..|ASSIGNMENT|][i];
    }
    forall i | 0 <= i < |NAME| ensures t[i] == NAME[i] {
      assert ASSIGNMENT[i] == NAME[i];
    }
    assert t[..|NAME|] == NAME;
    FirstEqualsIs(t, |NAME|);
    NothingToStrip(NAME);
  }

  lemma {:induction false} StripEndStopsAtEquals(text: string, n: nat)
    requires n < |text| && text[n] == '='
    ensures |StripEnd(text)| > n
  {
    if IsBlank(text[|text| - 1]) {
      StripEndStopsAtEquals(text[..|text| - 1], n);
    }
  }

  /** The reader takes a key line as assigning the key, or a name that begins with white space. */
  lemma KeyLineAssigns(line: string)
    requires IsKeyLine(line) && Assigned(line).Some?
    ensures var name := Assigned(line).value.name; name == NAME || (name != "" && IsWhiteSpace(name[0]))
  {
    StrippingKeepsTheKeyLine(line);
    var text := StripStart(line);
    if StartsWith(text, ASSIGNMENT) {
      assert text[|NAME|] == text[..|ASSIGNMENT|][|NAME|] == '=';
      StripEndStopsAtEquals(text, |NAME|);
      AssignsTheKey(text);
    } else {
      var t := StripEnd(text);
      assert t[0] == text[0] && text[0] != '=';
      var n := FirstEquals(t);
      assert n > 0 && t[..n][0] == text[0];
    }
  }

  predicate IsProperName(name: string) {
    name != "" && !IsWhiteSpace(name[0])
  }

  lemma {:induction false} OtherVariableStays(lines: seq<string>, key: string, name: string)
    requires IsPlainKey(key) && IsProperName(name) && name != NAME
    ensures var was, now := ReadAll(lines), ReadAll(ReplacedAll(lines, key));
      (name in now <==> name in was) && (name in was ==> now[name] == was[name])
  {
    hide IsKeyLine, Assigned, IsPlainKey;
    if lines != [] {
      var most, last := lines[..|lines| - 1], lines[|lines| - 1];
      OtherVariableStays(most, key, name);
      var all := ReplacedAll(lines, key);
      assert all[..|all| - 1] == ReplacedAll(most, key);
      KeyLineIsRead(key);
      if IsKeyLine(last) && Assigned(last).Some? {
        KeyLineAssigns(last);
      }
    }
  }

  /** A rewrite changes no other variable. */
  lemma OtherVariablesStay(existing: string, key: string, name: string)
    requires IsPlainKey(key) && IsProperName(name) && name != NAME
    ensures var was, now := ReadEnvironment(existing), ReadEnvironment(MergedText(existing, key));
      (name in now <==> name in was) && (name in was ==> now[name] == was[name])
  {
    hide IsKeyLine, Assigned, SplitLines, LinesOf, Unlines, IsPlainKey;
    var lines := LinesOf(existing);
    BothReadersAgree(existing);
    assert '\n' !in key by { PlainKeyIsOnOneLine(key); }
    MergedHoldsNoFeed(existing, key);
    WrittenLinesAreCut(Merged(lines, key), Feed);
    if HasKeyLine(lines) {
      OtherVariableStays(lines, key, name);
    } else {
      assert (lines + [ASSIGNMENT + key])[..|lines|] == lines;
      KeyLineIsRead(key);
    }
  }

  lemma PlainKeyIsOnOneLine(key: string)
    requires IsPlainKey(key)
    ensures '\n' !in key
  {
  }
}
