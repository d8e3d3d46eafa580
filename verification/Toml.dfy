/** The subset of TOML v1.0.0 a rendered config is written in, as a reader of text: comments, tables,
    bare and quoted keys, basic strings, decimal integers, booleans and arrays of strings (sections
    Comment, Keys, String, Integer, Boolean, Array and Table of the specification). This module reads and
    writes strings; TomlLines.dfy reads lines and documents. The writers are `toml_string` and `toml_key`
    (agents/common/pessimal_agent_core/src/onboarding.rs). */
module Toml {
  import opened Texts
  import opened Lines

  // ----- characters

  predicate IsBlankChar(c: char) {
    c == ' ' || c == '\t'
  }

  predicate IsBareChar(c: char) {
    'a' <= c <= 'z' || 'A' <= c <= 'Z' || '0' <= c <= '9' || c == '_' || c == '-'
  }

  predicate IsBare(key: string) {
    key != "" && forall i :: 0 <= i < |key| ==> IsBareChar(key[i])
  }

  /** Rust's `char::is_control`: the general category Cc. */
  predicate IsControl(c: char) {
    c < ' ' || '\U{7F}' <= c <= '\U{9F}'
  }

  /** The control characters a basic string may not hold as they are. */
  predicate IsForbidden(c: char) {
    (c < ' ' && c != '\t') || c == '\U{7F}'
  }

  // ----- hexadecimal

  function HexDigit(n: nat): char
    requires n < 16
  {
    if n < 10 then '0' + n as char else 'A' + (n - 10) as char
  }

  function HexValue(c: char): Option<nat> {
    if '0' <= c <= '9' then Some(c as int - '0' as int)
    else if 'A' <= c <= 'F' then Some(c as int - 'A' as int + 10)
    else if 'a' <= c <= 'f' then Some(c as int - 'a' as int + 10)
    else None
  }

  /** `{:04X}` of a number that needs no more digits. */
  function Hex4(n: nat): string
    requires n < 0x1_0000
  {
    [HexDigit(n / 0x1000), HexDigit(n / 0x100 % 16), HexDigit(n / 16 % 16), HexDigit(n % 16)]
  }

  function ReadHex(text: string, value: nat): Option<nat> {
    if text == "" then Some(value)
    else
      match HexValue(text[0])
      case None => None
      case Some(digit) => ReadHex(text[1..], 16 * value + digit)
  }

  predicate IsScalar(n: nat) {
    n < 0xD800 || 0xE000 <= n < 0x11_0000
  }

  // ----- basic strings

  /** What follows a backslash: the character it stands for and how much of the text it takes. */
  function ReadEscape(text: string): Option<(char, nat)> {
    if text == "" then None
    else match text[0]
      case 'b' => Some(('\U{08}', 1))
      case 't' => Some(('\t', 1))
      case 'n' => Some(('\n', 1))
      case 'f' => Some(('\U{0C}', 1))
      case 'r' => Some(('\r', 1))
      case '"' => Some(('"', 1))
      case '\\' => Some(('\\', 1))
      case 'u' => ReadCode(text, 4)
      case 'U' => ReadCode(text, 8)
      case _ => None
  }

  function ReadCode(text: string, digits: nat): Option<(char, nat)> {
    if |text| < 1 + digits then None
    else
      match ReadHex(text[1..1 + digits], 0)
      case None => None
      case Some(n) => if IsScalar(n) then Some((n as char, 1 + digits)) else None
  }

  /** The rest of a basic string after its opening quote, and what follows its closing one. */
  function ReadBody(text: string): (r: Option<(string, string)>)
    ensures r.Some? ==> |r.value.1| < |text|
    decreases |text|
  {
    if text == "" then None
    else if text[0] == '"' then Some(("", text[1..]))
    else if text[0] == '\\' then
      match ReadEscape(text[1..])
      case None => None
      case Some((c, taken)) =>
        if |text| < 1 + taken then None
        else
          match ReadBody(text[1 + taken..])
          case None => None
          case Some((body, rest)) => Some(([c] + body, rest))
    else if IsForbidden(text[0]) then None
    else
      match ReadBody(text[1..])
      case None => None
      case Some((body, rest)) => Some(([text[0]] + body, rest))
  }

  /** A basic string; one with three opening quotes is a multi-line string, which is not read here. */
  function ReadString(text: string): Option<(string, string)> {
    if StartsWith(text, "\"\"\"") || !StartsWith(text, "\"") then None else ReadBody(text[1..])
  }

  /** One character of `toml_string`. */
  function Escaped(c: char): string {
    match c
    case '"' => "\\\""
    case '\\' => "\\\\"
    case '\n' => "\\n"
    case '\r' => "\\r"
    case '\t' => "\\t"
    case _ => if IsControl(c) then "\\u" + Hex4(c as nat) else [c]
  }

  function EscapedAll(value: string): string {
    if value == "" then "" else Escaped(value[0]) + EscapedAll(value[1..])
  }

  /** `toml_string` */
  function Quoted(value: string): string {
    "\"" + EscapedAll(value) + "\""
  }

  method TomlString(value: string) returns (out: string)
    ensures out == Quoted(value)
  {
    hide Escaped;
    out := "\"";
    var i := 0;
    while i < |value|
      invariant 0 <= i <= |value|
      invariant out + EscapedAll(value[i..]) == "\"" + EscapedAll(value)
    {
      assert value[i..][1..] == value[i + 1..];
      out := out + Escaped(value[i]);
      i := i + 1;
    }
    out := out + "\"";
  }

  /** `toml_key` */
  function KeyText(key: string): string {
    if IsBare(key) then key else Quoted(key)
  }

  // ----- what is written is read

  lemma HexDigitReadsBack(n: nat)
    requires n < 16
    ensures HexValue(HexDigit(n)) == Some(n)
  {
  }

  lemma OneHexDigit(n: nat, rest: string, value: nat)
    requires n < 16
    ensures ReadHex([HexDigit(n)] + rest, value) == ReadHex(rest, 16 * value + n)
  {
    HexDigitReadsBack(n);
    assert ([HexDigit(n)] + rest)[1..] == rest;
  }

  lemma Hex4ReadsBack(n: nat)
    requires n < 0x100
    ensures ReadHex(Hex4(n), 0) == Some(n)
  {
    hide HexDigit, HexValue, ReadHex;
    var d, e := n / 16, n % 16;
    assert n / 0x1000 == 0 && n / 0x100 % 16 == 0 && d % 16 == d;
    var two := [HexDigit(d), HexDigit(e)];
    OneHexDigit(0, [HexDigit(0)] + two, 0);
    OneHexDigit(0, two, 0);
    OneHexDigit(d, [HexDigit(e)], 0);
    OneHexDigit(e, "", d);
    NoHexDigits(n);
    assert Hex4(n) == [HexDigit(0)] + ([HexDigit(0)] + two);
    assert two == [HexDigit(d)] + [HexDigit(e)] && [HexDigit(e)] + "" == [HexDigit(e)];
  }

  lemma NoHexDigits(n: nat)
    ensures ReadHex("", n) == Some(n)
  {
  }

  lemma ControlIsReadBack(c: char, rest: string)
    requires IsControl(c)
    ensures ReadEscape("u" + Hex4(c as nat) + rest) == Some((c, 5))
  {
    hide Hex4, ReadHex;
    var n := c as nat;
    var text := "u" + Hex4(n) + rest;
    assert n < 0xA0;
    FourDigits(n);
    assert text[1..5] == Hex4(n);
    Hex4ReadsBack(n);
  }

  lemma FourDigits(n: nat)
    requires n < 0x1_0000
    ensures |Hex4(n)| == 4
  {
  }

  lemma EscapeIsReadBack(c: char, rest: string)
    ensures var text := Escaped(c) + rest;
      text[0] != '"' &&
      if text[0] == '\\'
      then ReadEscape(text[1..]) == Some((c, |Escaped(c)| - 1)) && text[|Escaped(c)|..] == rest
      else text[0] == c && !IsForbidden(c) && text[1..] == rest
  {
    var text := Escaped(c) + rest;
    assert text[|Escaped(c)|..] == rest;
    if IsControl(c) && c != '\n' && c != '\r' && c != '\t' {
      ControlIsReadBack(c, rest);
      assert text[1..] == "u" + Hex4(c as nat) + rest;
    } else if |Escaped(c)| == 2 {
      assert text[1..][0] == Escaped(c)[1];
    }
  }

  lemma {:induction false} BodyIsReadBack(value: string, rest: string)
    ensures ReadBody(EscapedAll(value) + "\"" + rest) == Some((value, rest))
  {
    hide ReadEscape, Escaped, IsForbidden;
    var text := EscapedAll(value) + "\"" + rest;
    if value == "" {
      assert text == ['"'] + rest;
    } else {
      var tail := EscapedAll(value[1..]) + "\"" + rest;
      assert text == Escaped(value[0]) + tail;
      EscapeIsReadBack(value[0], tail);
      BodyIsReadBack(value[1..], rest);
      assert value == [value[0]] + value[1..];
    }
  }

  lemma TripleQuote(text: string)
    ensures StartsWith(text, "\"\"\"") ==> |text| > 2 && text[1] == '"' && text[2] == '"'
    ensures StartsWith(text, "\"") <==> text != "" && text[0] == '"'
  {
    if StartsWith(text, "\"\"\"") {
      assert text[1] == text[..3][1] && text[2] == text[..3][2];
    }
    if text != "" {
      assert text[..1] == [text[0]];
    }
  }

  lemma WrittenTextIsNotTripled(value: string, rest: string)
    requires rest != "" ==> rest[0] != '"'
    ensures !StartsWith(Quoted(value) + rest, "\"\"\"")
  {
    hide ReadEscape, StartsWith, Escaped;
    var text := Quoted(value) + rest;
    TripleQuote(text);
    if value == "" {
      assert |text| > 2 ==> text[2] == rest[0];
    } else {
      var tail := EscapedAll(value[1..]) + "\"" + rest;
      EscapeIsReadBack(value[0], tail);
      assert text[1] == (Escaped(value[0]) + tail)[0];
    }
  }

  /** Any string survives the writer, whatever quotes, backslashes and control characters it holds, as
      long as no quote follows it. */
  lemma StringIsReadBack(value: string, rest: string)
    requires rest != "" ==> rest[0] != '"'
    ensures ReadString(Quoted(value) + rest) == Some((value, rest))
  {
    hide ReadEscape, StartsWith, ReadBody;
    var text := Quoted(value) + rest;
    assert text[1..] == EscapedAll(value) + "\"" + rest;
    BodyIsReadBack(value, rest);
    TripleQuote(text);
    WrittenTextIsNotTripled(value, rest);
  }

  /** Text of printable ASCII without quotes and backslashes is written as it is. */
  lemma {:induction false} PlainTextIsKept(value: string)
    requires forall c :: c in value ==> ' ' <= c <= '~' && c != '"' && c != '\\'
    ensures EscapedAll(value) == value
  {
    if value != "" {
      assert value[0] in value && forall c :: c in value[1..] ==> c in value;
      PlainTextIsKept(value[1..]);
      assert Escaped(value[0]) == [value[0]];
    }
  }

  /** What the reader takes for one character (section String): nothing of the control characters but a tab may stand
      for itself, and a backslash is followed by one of these. */
  lemma CharactersAreRead(c: char, rest: string)
    ensures c != '"' && c != '\\' && ReadBody(rest).Some? ==>
      (ReadBody([c] + rest).Some? <==> c == '\t' || (' ' <= c && c != '\U{7F}'))
    ensures ReadEscape([c] + rest).Some? ==> c in "btnfr\"\\uU"
    ensures ReadEscape("b" + rest) == Some(('\U{08}', 1)) && ReadEscape("t" + rest) == Some(('\U{09}', 1))
    ensures ReadEscape("n" + rest) == Some(('\U{0A}', 1)) && ReadEscape("f" + rest) == Some(('\U{0C}', 1))
    ensures ReadEscape("r" + rest) == Some(('\U{0D}', 1))
  {
    hide ReadCode;
    assert ([c] + rest)[1..] == rest;
  }
}
