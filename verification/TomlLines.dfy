/** Lines of the TOML subset: how each kind of line is read, how the agent writes it, and that reading
    undoes writing. Section names are those of the TOML v1.0.0 specification. */
module TomlLines {
  import opened Texts
  import opened Lines
  import opened Toml

  datatype Value = Str(text: string) | Int(n: nat) | Bool(b: bool) | List(items: seq<string>)

  /** What one line says. */
  datatype Item = Nothing | Header(path: seq<string>) | Entry(key: string, value: Value)

  /** TOML's integers are signed and have 64 bits (section Integer). */
  const I64_MAX: nat := 0x7FFF_FFFF_FFFF_FFFF

  // ----- reading

  function SkipBlanks(text: string): (rest: string)
    ensures |rest| <= |text|
    ensures rest != "" ==> !IsBlankChar(rest[0])
  {
    if text != "" && IsBlankChar(text[0]) then SkipBlanks(text[1..]) else text
  }

  /** Nothing, or a comment (section Comment). */
  predicate IsLineEnd(text: string) {
    var rest := SkipBlanks(text);
    rest == "" || rest[0] == '#'
  }

  function BareLength(text: string): (n: nat)
    ensures n <= |text|
    ensures forall i :: 0 <= i < n ==> IsBareChar(text[i])
    ensures n < |text| ==> !IsBareChar(text[n])
  {
    if text == "" || !IsBareChar(text[0]) then 0 else 1 + BareLength(text[1..])
  }

  /** A bare or a quoted key (section Keys). */
  function ReadKey(text: string): Option<(string, string)> {
    if text != "" && text[0] == '"' then ReadString(text)
    else if BareLength(text) == 0 then None
    else Some((text[..BareLength(text)], text[BareLength(text)..]))
  }

  function DigitLength(text: string): (n: nat)
    ensures n <= |text|
    ensures forall i :: 0 <= i < n ==> IsDigit(text[i])
    ensures n < |text| ==> !IsDigit(text[n])
  {
    if text == "" || !IsDigit(text[0]) then 0 else 1 + DigitLength(text[1..])
  }

  /** A decimal integer without a leading zero, which must fit 64 bits (section Integer). */
  function ReadInt(text: string): Option<(Value, string)> {
    var n := DigitLength(text);
    if n == 0 || (n > 1 && text[0] == '0') || DecimalValue(text[..n]) > I64_MAX then None
    else Some((Int(DecimalValue(text[..n])), text[n..]))
  }

  /** The strings of an array after its opening bracket; a trailing comma is allowed (section Array). */
  function ReadList(text: string): Option<(seq<string>, string)>
    decreases |text|
  {
    var start := SkipBlanks(text);
    if start == "" then None
    else if start[0] == ']' then Some(([], start[1..]))
    else
      match ReadString(start)
      case None => None
      case Some((first, after)) =>
        var next := SkipBlanks(after);
        if next == "" then None
        else if next[0] == ']' then Some(([first], next[1..]))
        else if next[0] == ',' then
          match ReadList(next[1..])
          case None => None
          case Some((others, rest)) => Some(([first] + others, rest))
        else None
  }

  function ReadValue(text: string): Option<(Value, string)> {
    if text == "" then None
    else if text[0] == '"' then
      match ReadString(text)
      case None => None
      case Some((s, rest)) => Some((Str(s), rest))
    else if text[0] == '[' then
      match ReadList(text[1..])
      case None => None
      case Some((items, rest)) => Some((List(items), rest))
    else if IsDigit(text[0]) then ReadInt(text)
    else if StartsWith(text, "true") then Some((Bool(true), text[4..]))
    else if StartsWith(text, "false") then Some((Bool(false), text[5..]))
    else None
  }

  /** `key = value`, with nothing but a comment after it. */
  function ReadEntry(text: string): Option<Item> {
    match ReadKey(text)
    case None => None
    case Some((key, afterKey)) =>
      var equals := SkipBlanks(afterKey);
      if equals == "" || equals[0] != '=' then None
      else
        match ReadValue(SkipBlanks(equals[1..]))
        case None => None
        case Some((value, rest)) => if IsLineEnd(rest) then Some(Entry(key, value)) else None
  }

  function HeaderLength(text: string): (n: nat)
    ensures n <= |text|
  {
    if text == "" || text[0] == ']' then 0 else 1 + HeaderLength(text[1..])
  }

  /** `[a.b]`, of bare keys (section Table). */
  function ReadHeader(text: string): Option<Item> {
    var n := HeaderLength(text);
    if n == |text| || !IsLineEnd(text[n + 1..]) then None
    else
      var path := SplitAtDots(text[..n]);
      if forall part :: part in path ==> IsBare(part) then Some(Header(path)) else None
  }

  function ReadLine(line: string): Option<Item> {
    var text := SkipBlanks(line);
    if IsLineEnd(text) then Some(Nothing)
    else if text[0] == '[' then ReadHeader(text[1..])
    else ReadEntry(text)
  }

  // ----- writing

  function QuotedAll(items: seq<string>): string {
    if items == [] then "" else if |items| == 1 then Quoted(items[0]) else Quoted(items[0]) + ", " + QuotedAll(items[1..])
  }

  function ValueText(value: Value): string {
    match value
    case Str(text) => Quoted(text)
    case Int(n) => Decimal(n)
    case Bool(b) => if b then "true" else "false"
    case List(items) => "[" + QuotedAll(items) + "]"
  }

  function EntryText(key: string, value: Value): string {
    KeyText(key) + " = " + ValueText(value)
  }

  function HeaderText(path: seq<string>): string {
    "[" + JoinWithDots(path) + "]"
  }

  // ----- reading undoes writing

  lemma {:induction false} BareKeyIsMeasured(key: string, rest: string)
    requires forall i :: 0 <= i < |key| ==> IsBareChar(key[i])
    requires rest != "" ==> !IsBareChar(rest[0])
    ensures BareLength(key + rest) == |key|
  {
    if key == "" {
      assert key + rest == rest;
    } else {
      BareKeyIsMeasured(key[1..], rest);
      assert (key + rest)[1..] == key[1..] + rest;
    }
  }

  lemma KeyIsReadBack(key: string, rest: string)
    requires rest != "" ==> !IsBareChar(rest[0]) && rest[0] != '"'
    ensures ReadKey(KeyText(key) + rest) == Some((key, rest))
    ensures var c := (KeyText(key) + rest)[0]; IsBareChar(c) || c == '"'
  {
    hide ReadString;
    if IsBare(key) {
      BareKeyIsMeasured(key, rest);
      assert IsBareChar(key[0]);
    } else {
      StringIsReadBack(key, rest);
    }
  }

  lemma {:induction false} DigitsAreMeasured(text: string)
    requires forall i :: 0 <= i < |text| ==> IsDigit(text[i])
    ensures DigitLength(text) == |text|
  {
    if text != "" {
      DigitsAreMeasured(text[1..]);
    }
  }

  lemma IntIsReadBack(n: nat)
    ensures ReadInt(Decimal(n)) == if n <= I64_MAX then Some((Int(n), "")) else None
    ensures Decimal(n) != "" && IsDigit(Decimal(n)[0])
  {
    DecimalReadsBack(n);
    DigitsAreMeasured(Decimal(n));
    var text := Decimal(n);
    assert text[..|text|] == text && text[|text|..] == "";
  }

  lemma QuotedStartsWithQuote(value: string, rest: string)
    ensures Quoted(value) != "" && Quoted(value)[0] == '"' && SkipBlanks(Quoted(value) + rest) == Quoted(value) + rest
  {
  }

  lemma {:induction false} ListIsReadBack(items: seq<string>)
    ensures ReadList(QuotedAll(items) + "]") == Some((items, ""))
  {
    hide ReadString, Quoted;
    if items == [] {
      assert QuotedAll(items) + "]" == "]";
    } else if |items| == 1 {
      StringIsReadBack(items[0], "]");
      QuotedStartsWithQuote(items[0], "]");
      assert QuotedAll(items) + "]" == Quoted(items[0]) + "]";
      assert SkipBlanks("]") == "]" && "]"[1..] == "";
      assert items == [items[0]];
    } else {
      var tail := QuotedAll(items[1..]) + "]";
      var rest := ", " + tail;
      assert QuotedAll(items) + "]" == Quoted(items[0]) + rest;
      StringIsReadBack(items[0], rest);
      QuotedStartsWithQuote(items[0], rest);
      ListIsReadBack(items[1..]);
      assert rest[1..] == " " + tail;
      LeadingBlankIsSkipped(tail);
      assert items == [items[0]] + items[1..];
    }
  }

  lemma LeadingBlankIsSkipped(text: string)
    ensures ReadList(" " + text) == ReadList(text)
  {
    assert (" " + text)[1..] == text;
    assert SkipBlanks(" " + text) == SkipBlanks(text);
  }

  /** Whether a value can be written at all: TOML has no integer beyond 64 signed bits. */
  predicate IsWritable(value: Value) {
    value.Int? ==> value.n <= I64_MAX
  }

  lemma BoolIsReadBack(b: bool)
    ensures var text := ValueText(Bool(b)); ReadValue(text) == Some((Bool(b), "")) && SkipBlanks(text) == text
  {
    assert "true"[..4] == "true" && "true"[4..] == "";
    assert "false"[..5] == "false" && "false"[5..] == "" && "false"[..4][0] == 'f';
  }

  lemma StrIsReadBack(s: string)
    ensures var text := ValueText(Str(s)); ReadValue(text) == Some((Str(s), "")) && SkipBlanks(text) == text
  {
    hide ReadString, Quoted;
    var text := Quoted(s);
    assert text + "" == text;
    QuotedStartsWithQuote(s, "");
    StringIsReadBack(s, "");
    assert ReadString(text) == Some((s, ""));
    assert text[0] == '"';
    assert ReadValue(text) == Some((Str(s), ""));
  }

  lemma ListValueIsReadBack(items: seq<string>)
    ensures var text := ValueText(List(items)); ReadValue(text) == Some((List(items), "")) && SkipBlanks(text) == text
  {
    hide ReadList, QuotedAll;
    ListIsReadBack(items);
    assert ValueText(List(items))[1..] == QuotedAll(items) + "]";
  }

  lemma ValueIsReadBack(value: Value)
    ensures ReadValue(ValueText(value)) == if IsWritable(value) then Some((value, "")) else None
    ensures SkipBlanks(ValueText(value)) == ValueText(value)
  {
    hide ReadString, ReadList, ReadInt, Quoted, Decimal;
    match value
    case Str(text) => StrIsReadBack(text);
    case Int(n) => IntIsReadBack(n);
    case Bool(b) => BoolIsReadBack(b);
    case List(items) => ListValueIsReadBack(items);
  }

  /** A written entry is read back as it was, and one TOML cannot hold is refused. */
  lemma EntryIsReadBack(key: string, value: Value)
    ensures ReadLine(EntryText(key, value)) == if IsWritable(value) then Some(Entry(key, value)) else None
  {
    hide ReadKey, ReadValue, ValueText, KeyText, IsWritable;
    var rest := " = " + ValueText(value);
    var line := EntryText(key, value);
    assert line == KeyText(key) + rest;
    KeyIsReadBack(key, rest);
    assert SkipBlanks(line) == line;
    assert rest[1..] == "= " + ValueText(value) && SkipBlanks(rest) == rest[1..];
    var afterEquals := " " + ValueText(value);
    assert rest[1..][1..] == afterEquals;
    assert afterEquals[1..] == ValueText(value) && SkipBlanks(afterEquals) == SkipBlanks(ValueText(value));
    ValueIsReadBack(value);
  }

  lemma {:induction false} HeaderIsMeasured(text: string, rest: string)
    requires ']' !in text
    ensures HeaderLength(text + "]" + rest) == |text|
  {
    if text == "" {
      assert text + "]" + rest == [']'] + rest;
    } else {
      assert text[0] in text;
      HeaderIsMeasured(text[1..], rest);
      assert (text + "]" + rest)[1..] == text[1..] + "]" + rest;
    }
  }

  lemma BareHoldsOnlyBareChars(key: string, c: char)
    requires IsBare(key) && !IsBareChar(c)
    ensures c !in key
  {
    forall i | 0 <= i < |key| ensures key[i] != c {
      assert IsBareChar(key[i]);
    }
  }

  lemma {:induction false} JoinHoldsNoBracket(path: seq<string>)
    requires forall part :: part in path ==> IsBare(part)
    ensures ']' !in JoinWithDots(path)
  {
    if path != [] {
      BareHoldsOnlyBareChars(path[0], ']');
    }
    if |path| > 1 {
      JoinHoldsNoBracket(path[1..]);
    }
  }

  lemma HeaderIsReadBack(path: seq<string>)
    requires path != [] && forall part :: part in path ==> IsBare(part)
    ensures ReadLine(HeaderText(path)) == Some(Header(path))
  {
    hide SplitAtDots, JoinWithDots;
    var text := JoinWithDots(path);
    JoinHoldsNoBracket(path);
    HeaderIsMeasured(text, "");
    forall part | part in path ensures '.' !in part {
      BareHoldsOnlyBareChars(part, '.');
    }
    JoinedPartsAreSplit(path);
    var line := HeaderText(path);
    assert line[1..] == text + "]" + "";
    assert line[1..][..|text|] == text && line[1..][|text| + 1..] == "";
  }
}
