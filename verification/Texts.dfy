/** Small shared vocabulary: optional values, and the ordering of names by code point that
    Python's `sorted` and Rust's `BTreeMap<String, _>` both use. */
module Texts {

  datatype Option<+T> = None | Some(value: T)

  /** A byte string, one `char` below 256 per byte. Every text the release writes is ASCII, so its
      UTF-8 encoding is the text itself. */
  type Bytes = string

  /** `prefix` starts `text`. */
  predicate StartsWith(text: string, prefix: string) {
    |prefix| <= |text| && text[..|prefix|] == prefix
  }

  predicate EndsWith(text: string, suffix: string) {
    |suffix| <= |text| && text[|text| - |suffix|..] == suffix
  }

  /** `pattern` occurs somewhere in `text`. */
  predicate Contains(text: string, pattern: string) {
    exists i :: 0 <= i <= |text| && StartsWith(text[i..], pattern)
  }

  /** Unicode's White_Space, which Rust's `trim` and `is_whitespace` go by. */
  predicate IsWhiteSpace(c: char) {
    '\t' <= c <= '\r' || c == ' ' || c == '\U{85}' || c == '\U{A0}' || c == '\U{1680}' || '\U{2000}' <= c <= '\U{200A}'
    || c == '\U{2028}' || c == '\U{2029}' || c == '\U{202F}' || c == '\U{205F}' || c == '\U{3000}'
  }

  function TrimStart(text: string): string {
    if text != "" && IsWhiteSpace(text[0]) then TrimStart(text[1..]) else text
  }

  function TrimEnd(text: string): string {
    if text != "" && IsWhiteSpace(text[|text| - 1]) then TrimEnd(text[..|text| - 1]) else text
  }

  function Trim(text: string): string {
    TrimEnd(TrimStart(text))
  }

  predicate IsAllWhite(text: string) {
    forall i :: 0 <= i < |text| ==> IsWhiteSpace(text[i])
  }

  /** Nothing but white space has been cut off the ends of `text`, and all of that. */
  ghost predicate IsTrimmed(trimmed: string, text: string) {
    (exists before, after :: IsAllWhite(before) && IsAllWhite(after) && text == before + trimmed + after)
    && (trimmed != "" ==> !IsWhiteSpace(trimmed[0]) && !IsWhiteSpace(trimmed[|trimmed| - 1]))
  }

  lemma {:induction false} TrimStartCuts(text: string)
    ensures var rest := TrimStart(text);
      |rest| <= |text| && IsAllWhite(text[..|text| - |rest|]) && rest == text[|text| - |rest|..]
      && (rest != "" ==> !IsWhiteSpace(rest[0]))
  {
    hide IsWhiteSpace;
    if text != "" && IsWhiteSpace(text[0]) {
      TrimStartCuts(text[1..]);
      var n := |text| - |TrimStart(text)|;
      assert text[..n] == [text[0]] + text[1..][..n - 1];
    }
  }

  lemma {:induction false} TrimEndCuts(text: string)
    ensures var rest := TrimEnd(text);
      |rest| <= |text| && IsAllWhite(text[|rest|..]) && rest == text[..|rest|]
      && (rest != "" ==> !IsWhiteSpace(rest[|rest| - 1]))
  {
    hide IsWhiteSpace;
    if text != "" && IsWhiteSpace(text[|text| - 1]) {
      TrimEndCuts(text[..|text| - 1]);
      var n := |TrimEnd(text)|;
      assert text[n..] == text[..|text| - 1][n..] + [text[|text| - 1]];
    }
  }

  lemma TrimIsTrimmed(text: string)
    ensures IsTrimmed(Trim(text), text)
  {
    hide IsWhiteSpace, IsAllWhite, TrimStart, TrimEnd;
    TrimStartCuts(text);
    var middle := TrimStart(text);
    TrimEndCuts(middle);
    var trimmed, before := Trim(text), text[..|text| - |middle|];
    var after := middle[|trimmed|..];
    assert text == before + trimmed + after;
    if trimmed != "" {
      assert trimmed[0] == middle[0];
    }
  }

  lemma BlankIsTrimmedAway(text: string)
    ensures Trim(text) == "" <==> IsAllWhite(text)
  {
    hide IsWhiteSpace, TrimStart, TrimEnd;
    TrimIsTrimmed(text);
    TrimStartCuts(text);
    if Trim(text) == "" {
      var before, after :| IsAllWhite(before) && IsAllWhite(after) && text == before + "" + after;
      assert forall i :: 0 <= i < |text| ==> text[i] == if i < |before| then before[i] else after[i - |before|];
    } else {
      var before, after :| IsAllWhite(before) && IsAllWhite(after) && text == before + Trim(text) + after;
      assert text[|before|] == Trim(text)[0];
    }
  }

  function LowerAscii(text: string): string {
    seq(|text|, i requires 0 <= i < |text| => if 'A' <= text[i] <= 'Z' then text[i] - 'A' + 'a' else text[i])
  }

  /** Lexicographic order by code point, strict. */
  predicate Less(a: string, b: string) {
    b != [] && (a == [] || a[0] < b[0] || (a[0] == b[0] && Less(a[1..], b[1..])))
  }

  /** The first difference decides, and an end comes before anything else. */
  ghost predicate IsBefore(a: string, b: string) {
    exists k :: 0 <= k < |b| && k <= |a| && a[..k] == b[..k] && (k == |a| || a[k] < b[k])
  }

  lemma {:induction false} LessIsBefore(a: string, b: string)
    ensures Less(a, b) <==> IsBefore(a, b)
  {
    if a != [] && b != [] && a[0] == b[0] {
      LessIsBefore(a[1..], b[1..]);
      if IsBefore(a[1..], b[1..]) {
        var k :| 0 <= k < |b[1..]| && k <= |a[1..]| && a[1..][..k] == b[1..][..k]
          && (k == |a[1..]| || a[1..][k] < b[1..][k]);
        assert a[..k + 1] == [a[0]] + a[1..][..k] && b[..k + 1] == [b[0]] + b[1..][..k];
      }
      if IsBefore(a, b) {
        var k :| 0 <= k < |b| && k <= |a| && a[..k] == b[..k] && (k == |a| || a[k] < b[k]);
        assert k > 0;
        assert a[1..][..k - 1] == a[..k][1..] && b[1..][..k - 1] == b[..k][1..];
      }
    } else {
      assert b != [] && (a == [] || a[0] < b[0]) ==> a[..0] == b[..0];
      if a != [] && b != [] {
        DifferentStarts(a, b);
      }
    }
  }

  lemma DifferentStarts(a: string, b: string)
    requires a != [] && b != [] && a[0] != b[0]
    ensures forall k :: 0 < k <= |a| && k <= |b| ==> a[..k] != b[..k]
  {
    forall k | 0 < k <= |a| && k <= |b| ensures a[..k] != b[..k] {
      assert a[..k][0] == a[0] && b[..k][0] == b[0];
    }
  }

  predicate AtMost(a: string, b: string) {
    a == b || Less(a, b)
  }

  lemma {:induction false} LessIsTransitive(a: string, b: string, c: string)
    requires Less(a, b) && Less(b, c)
    ensures Less(a, c)
  {
    if a != [] && a[0] == b[0] && b[0] == c[0] {
      LessIsTransitive(a[1..], b[1..], c[1..]);
    }
  }

  lemma {:induction false} LessIsTotal(a: string, b: string)
    ensures Less(a, b) || a == b || Less(b, a)
  {
    if a != [] && b != [] && a[0] == b[0] {
      LessIsTotal(a[1..], b[1..]);
      assert a == [a[0]] + a[1..] && b == [b[0]] + b[1..];
    }
  }

  lemma {:induction false} LessIsAsymmetric(a: string, b: string)
    requires Less(a, b)
    ensures !Less(b, a) && a != b
  {
    if a != [] && a[0] == b[0] {
      LessIsAsymmetric(a[1..], b[1..]);
    }
  }

  lemma {:induction false} LeastExists(names: set<string>)
    requires names != {}
    ensures exists n :: n in names && forall m :: m in names ==> AtMost(n, m)
  {
    var some :| some in names;
    var rest := names - {some};
    if rest == {} {
      assert names == rest + {some};
    } else {
      LeastExists(rest);
      var n :| n in rest && forall m :: m in rest ==> AtMost(n, m);
      LessIsTotal(some, n);
      var least := if Less(some, n) then some else n;
      forall m | m in names ensures AtMost(least, m) {
        if m != some && AtMost(n, m) && n != m && Less(some, n) {
          LessIsTransitive(some, n, m);
        }
      }
    }
  }

  lemma LeastIsUnique(names: set<string>)
    ensures forall x, y ::
      (x in names && y in names && (forall m :: m in names ==> AtMost(x, m)) && (forall m :: m in names ==> AtMost(y, m)))
      ==> x == y
  {
    forall x, y | x in names && y in names && (forall m :: m in names ==> AtMost(x, m))
        && (forall m :: m in names ==> AtMost(y, m))
      ensures x == y
    {
      assert AtMost(x, y) && AtMost(y, x);
      if Less(x, y) {
        LessIsAsymmetric(x, y);
      }
    }
  }

  function Least(names: set<string>): string
    requires names != {}
  {
    LeastExists(names);
    LeastIsUnique(names);
    var n :| n in names && forall m :: m in names ==> AtMost(n, m);
    n
  }

  /** The names in ascending order, each once. */
  function Ascending(names: set<string>): seq<string> {
    if names == {} then [] else [Least(names)] + Ascending(names - {Least(names)})
  }

  ghost predicate StrictlyAscending(s: seq<string>) {
    forall i, j :: 0 <= i < j < |s| ==> Less(s[i], s[j])
  }

  lemma LeastIsThere(names: set<string>)
    requires names != {}
    ensures Least(names) in names && forall m :: m in names ==> AtMost(Least(names), m)
  {
    hide Less, AtMost;
    LeastExists(names);
    LeastIsUnique(names);
  }

  /** `Ascending` lists exactly the set, strictly ascending, hence without repeats. */
  lemma {:induction false} AscendingListsTheSet(names: set<string>)
    ensures forall n :: n in names <==> n in Ascending(names)
    ensures StrictlyAscending(Ascending(names))
    ensures |Ascending(names)| == |names|
  {
    hide Less, Least;
    if names != {} {
      var least := Least(names);
      LeastIsThere(names);
      var rest := names - {least};
      AscendingListsTheSet(rest);
      var tail := Ascending(rest);
      forall j | 0 <= j < |tail| ensures Less(least, tail[j]) {
        assert tail[j] in tail && tail[j] in rest;
        assert AtMost(least, tail[j]);
      }
      assert names == {least} + rest;
    }
  }

  lemma AscendingIsDistinct(names: set<string>)
    ensures forall i, j :: 0 <= i < j < |Ascending(names)| ==> Ascending(names)[i] != Ascending(names)[j]
  {
    AscendingListsTheSet(names);
    var s := Ascending(names);
    forall i, j | 0 <= i < j < |s| ensures s[i] != s[j] {
      LessIsAsymmetric(s[i], s[j]);
    }
  }

  // ----- decimal numbers

  predicate IsDigit(c: char) {
    '0' <= c <= '9'
  }

  predicate IsDecimal(text: string) {
    text != "" && forall i :: 0 <= i < |text| ==> IsDigit(text[i])
  }

  /** The number a string of digits denotes; leading zeros do not change it. */
  function DecimalValue(text: string): nat
    requires forall i :: 0 <= i < |text| ==> IsDigit(text[i])
  {
    if text == "" then 0
    else
      var last := text[|text| - 1];
      assert IsDigit(last);
      10 * DecimalValue(text[..|text| - 1]) + (last as int - '0' as int)
  }

  /** The decimal digits of a number, without leading zeros. */
  function Decimal(n: nat): string {
    if n < 10 then ['0' + n as char] else Decimal(n / 10) + ['0' + (n % 10) as char]
  }

  lemma {:induction false} DecimalReadsBack(n: nat)
    ensures IsDecimal(Decimal(n)) && DecimalValue(Decimal(n)) == n
    ensures Decimal(n)[0] == '0' ==> Decimal(n) == "0"
  {
    var text := Decimal(n);
    if n >= 10 {
      DecimalReadsBack(n / 10);
      var rest, last := Decimal(n / 10), '0' + (n % 10) as char;
      assert text == rest + [last] && IsDigit(last);
      assert text[..|text| - 1] == rest;
    } else {
      assert text[..0] == "";
    }
  }

  function Pow10(n: nat): nat {
    if n == 0 then 1 else 10 * Pow10(n - 1)
  }

  /** The first digit is the most significant one. */
  lemma {:induction false} FirstDigitCountsMost(first: char, rest: string)
    requires IsDigit(first) && forall i :: 0 <= i < |rest| ==> IsDigit(rest[i])
    ensures DecimalValue([first] + rest) == (first as int - '0' as int) * Pow10(|rest|) + DecimalValue(rest)
  {
    var all := [first] + rest;
    if rest == "" {
      assert all[..0] == "";
    } else {
      var most := rest[..|rest| - 1];
      FirstDigitCountsMost(first, most);
      assert all[..|all| - 1] == [first] + most;
      MovedUp(first as int - '0' as int, Pow10(|most|));
    }
  }

  lemma MovedUp(digit: int, weight: int)
    ensures 10 * (digit * weight) == digit * (10 * weight)
  {
  }

  // ----- dotted text

  function SplitAtDots(text: string): seq<string> {
    if text == "" then [""]
    else
      var rest := SplitAtDots(text[1..]);
      if text[0] == '.' then [""] + rest
      else if rest == [] then [text]
      else [[text[0]] + rest[0]] + rest[1..]
  }

  function JoinWithDots(parts: seq<string>): string {
    if parts == [] then "" else if |parts| == 1 then parts[0] else parts[0] + "." + JoinWithDots(parts[1..])
  }

  lemma {:induction false} FirstPartIsCutOff(part: string, rest: string)
    requires '.' !in part
    ensures SplitAtDots(part) == [part]
    ensures SplitAtDots(part + "." + rest) == [part] + SplitAtDots(rest)
  {
    if part == "" {
      assert part + "." + rest == ['.'] + rest;
    } else {
      FirstPartIsCutOff(part[1..], rest);
      assert part == [part[0]] + part[1..];
      assert (part + "." + rest)[1..] == part[1..] + "." + rest;
    }
  }

  lemma {:induction false} JoinedPartsAreSplit(parts: seq<string>)
    requires parts != [] && forall p :: p in parts ==> '.' !in p
    ensures SplitAtDots(JoinWithDots(parts)) == parts
  {
    FirstPartIsCutOff(parts[0], JoinWithDots(parts[1..]));
    if |parts| > 1 {
      JoinedPartsAreSplit(parts[1..]);
    }
  }

  lemma {:induction false} SplitPartsJoin(text: string)
    ensures SplitAtDots(text) != [] && JoinWithDots(SplitAtDots(text)) == text
  {
    if text != "" {
      SplitPartsJoin(text[1..]);
      var rest := SplitAtDots(text[1..]);
      var parts := SplitAtDots(text);
      assert text == [text[0]] + text[1..];
      if text[0] == '.' {
        assert parts[1..] == rest;
        assert JoinWithDots(parts) == "" + "." + JoinWithDots(rest);
      } else {
        assert parts[1..] == rest[1..];
      }
    }
  }
}
