/** Stable resource names: five segments joined by `::`, the last a UUID (common/pessimal_core/src/urn.rs). */
module Urns {
  import opened Texts

  // ----- separators

  predicate SeparatorAt(text: string, i: int) {
    0 <= i < |text| - 1 && text[i] == ':' && text[i + 1] == ':'
  }

  predicate HasSeparator(text: string) {
    exists i :: 0 <= i < |text| && SeparatorAt(text, i)
  }

  predicate EndsInColon(text: string) {
    text != "" && text[|text| - 1] == ':'
  }

  /** Where the leftmost separator from `i` on is, or the text's length. */
  function FirstSeparator(text: string, i: nat): (n: nat)
    requires i <= |text|
    ensures i <= n <= |text|
    ensures n < |text| ==> SeparatorAt(text, n)
    ensures forall k :: i <= k < n ==> !SeparatorAt(text, k)
    decreases |text| - i
  {
    if i == |text| || SeparatorAt(text, i) then i else FirstSeparator(text, i + 1)
  }

  /** `split("::")` */
  function Split(text: string): (segments: seq<string>)
    ensures segments != []
    decreases |text|
  {
    var n := FirstSeparator(text, 0);
    if n == |text| then [text] else [text[..n]] + Split(text[n + 2..])
  }

  function Join(segments: seq<string>): string {
    if segments == [] then "" else if |segments| == 1 then segments[0] else segments[0] + "::" + Join(segments[1..])
  }

  /** A segment that a separator follows is clean when it has none inside and does not end in a colon. */
  predicate IsClean(segment: string) {
    !HasSeparator(segment) && !EndsInColon(segment)
  }

  /** Segments that `split` can give: all but the last are clean, and the last has no separator inside. */
  predicate AreClean(segments: seq<string>) {
    segments != [] && !HasSeparator(segments[|segments| - 1])
    && forall i :: 0 <= i < |segments| - 1 ==> IsClean(segments[i])
  }

  lemma {:induction false} SplitIsClean(text: string)
    ensures AreClean(Split(text)) && Join(Split(text)) == text
    decreases |text|
  {
    hide HasSeparator, IsClean, Join, AreClean;
    var n := FirstSeparator(text, 0);
    if n < |text| {
      var rest := text[n + 2..];
      SplitIsClean(rest);
      FirstSegmentIsClean(text);
      CleanSegmentBefore(text[..n], Split(rest));
      assert text == text[..n] + "::" + rest;
    } else {
      OneSegment(text);
    }
  }

  lemma OneSegment(text: string)
    requires FirstSeparator(text, 0) == |text|
    ensures AreClean([text]) && Join([text]) == text
  {
  }

  lemma CleanSegmentBefore(first: string, others: seq<string>)
    requires IsClean(first) && AreClean(others)
    ensures AreClean([first] + others) && Join([first] + others) == first + "::" + Join(others)
  {
    hide HasSeparator, EndsInColon;
    var all := [first] + others;
    assert all[1..] == others;
    forall i | 0 <= i < |all| - 1 ensures IsClean(all[i]) {
      assert i > 0 ==> all[i] == others[i - 1];
    }
  }

  lemma FirstSegmentIsClean(text: string)
    ensures var n := FirstSeparator(text, 0); n < |text| ==> IsClean(text[..n])
  {
    var n := FirstSeparator(text, 0);
    if n < |text| {
      var first := text[..n];
      forall i ensures !SeparatorAt(first, i) {
        if 0 <= i < n {
          assert !SeparatorAt(text, i);
        }
      }
      if n > 0 {
        assert !SeparatorAt(text, n - 1);
      }
    }
  }

  lemma FirstSeparatorIs(text: string, n: nat)
    requires n <= |text| && (forall k :: 0 <= k < n ==> !SeparatorAt(text, k)) && (n < |text| ==> SeparatorAt(text, n))
    ensures FirstSeparator(text, 0) == n
  {
    var found := FirstSeparator(text, 0);
    assert found < |text| ==> SeparatorAt(text, found);
  }

  lemma CleanSegmentIsCutOff(segment: string, rest: string)
    requires IsClean(segment)
    ensures Split(segment + "::" + rest) == [segment] + Split(rest)
  {
    var text := segment + "::" + rest;
    forall k | 0 <= k < |segment| ensures !SeparatorAt(text, k) {
      assert !SeparatorAt(segment, k);
    }
    assert SeparatorAt(text, |segment|);
    FirstSeparatorIs(text, |segment|);
    assert text[..|segment|] == segment && text[|segment| + 2..] == rest;
  }

  lemma {:induction false} JoinedIsSplit(segments: seq<string>)
    requires AreClean(segments)
    ensures Split(Join(segments)) == segments
  {
    if |segments| == 1 {
      forall k | 0 <= k < |segments[0]| ensures !SeparatorAt(segments[0], k) {}
      FirstSeparatorIs(segments[0], |segments[0]|);
    } else {
      assert AreClean(segments[1..]) by {
        forall i | 0 <= i < |segments[1..]| - 1 ensures IsClean(segments[1..][i]) {}
      }
      JoinedIsSplit(segments[1..]);
      CleanSegmentIsCutOff(segments[0], Join(segments[1..]));
    }
  }

  /** Splitting undoes joining exactly for clean segments. */
  lemma SplitUndoesJoinIff(segments: seq<string>)
    ensures Split(Join(segments)) == segments <==> AreClean(segments)
  {
    hide Split, Join, AreClean;
    SplitIsClean(Join(segments));
    if AreClean(segments) {
      JoinedIsSplit(segments);
    }
  }

  // ----- UUIDs

  /** A UUID by its 32 hexadecimal digits. */
  type Uuid = d: seq<nat> | |d| == 32 && forall i :: 0 <= i < 32 ==> d[i] < 16 witness seq(32, i => 0)

  function HexOf(n: nat): char
    requires n < 16
  {
    if n < 10 then '0' + n as char else 'a' + (n - 10) as char
  }

  /** A hexadecimal digit of either case. */
  function DigitOf(c: char): (r: Option<nat>)
    ensures r.Some? ==> r.value < 16
  {
    if '0' <= c <= '9' then Some((c - '0') as nat)
    else if 'a' <= c <= 'f' then Some((c - 'a') as nat + 10)
    else if 'A' <= c <= 'F' then Some((c - 'A') as nat + 10)
    else None
  }

  /** The place of a digit in the hyphenated form. */
  function Place(i: nat): nat {
    if i < 8 then i else if i < 12 then i + 1 else if i < 16 then i + 2 else if i < 20 then i + 3 else i + 4
  }

  const HYPHENS := [8, 13, 18, 23]

  /** Which digit stands at a place that holds one. */
  function DigitAt(place: nat): nat
    requires place !in HYPHENS
  {
    if place < 8 then place else if place < 13 then place - 1 else if place < 18 then place - 2
    else if place < 23 then place - 3 else place - 4
  }

  /** The canonical text: lower case, with hyphens. */
  function PrintUuid(u: Uuid): (text: string)
    ensures |text| == 36
  {
    seq(36, p requires 0 <= p < 36 => if p in HYPHENS then '-' else HexOf(u[DigitAt(p)]))
  }

  function ReadDigits(text: string): Option<Uuid>
    requires |text| == 32
  {
    if forall i :: 0 <= i < 32 ==> DigitOf(text[i]).Some?
    then Some(seq(32, i requires 0 <= i < 32 => DigitOf(text[i]).value))
    else None
  }

  function ReadHyphenated(text: string): Option<Uuid>
    requires |text| == 36
  {
    if forall p :: p in HYPHENS ==> text[p] == '-'
    then ReadDigits(seq(32, i requires 0 <= i < 32 => text[Place(i)]))
    else None
  }

  /** `Uuid::parse_str`: simple, hyphenated, braced, or as a `urn:uuid:`. */
  function ParseUuid(text: string): Option<Uuid> {
    if |text| == 32 then ReadDigits(text)
    else if |text| == 36 then ReadHyphenated(text)
    else if |text| == 38 && text[0] == '{' && text[37] == '}' then ReadHyphenated(text[1..37])
    else if |text| == 45 && StartsWith(text, "urn:uuid:") then ReadHyphenated(text[9..])
    else None
  }

  predicate IsCanonical(text: string) {
    |text| == 36 && (forall p :: p in HYPHENS ==> text[p] == '-')
    && forall p :: 0 <= p < 36 && p !in HYPHENS ==> '0' <= text[p] <= '9' || 'a' <= text[p] <= 'f'
  }

  lemma HexReadsBack(n: nat)
    requires n < 16
    ensures DigitOf(HexOf(n)) == Some(n)
  {
  }

  lemma PlacesMatch(i: nat)
    requires i < 32
    ensures Place(i) < 36 && Place(i) !in HYPHENS && DigitAt(Place(i)) == i
  {
  }

  lemma PrintedUuidIsRead(u: Uuid)
    ensures ParseUuid(PrintUuid(u)) == Some(u)
  {
    hide DigitOf, HexOf, Place, DigitAt;
    var text := PrintUuid(u);
    forall i | 0 <= i < 32 ensures Place(i) < 36 && DigitOf(text[Place(i)]) == Some(u[i]) {
      PlacesMatch(i);
      HexReadsBack(u[i]);
    }
    var digits := seq(32, i requires 0 <= i < 32 => text[Place(i)]);
    assert ReadDigits(digits) == Some(u) by {
      assert forall i :: 0 <= i < 32 ==> digits[i] == text[Place(i)];
      assert seq(32, i requires 0 <= i < 32 => DigitOf(digits[i]).value) == u;
    }
  }

  lemma PrintedUuidIsCanonical(u: Uuid)
    ensures IsCanonical(PrintUuid(u))
  {
    hide DigitAt;
    var text := PrintUuid(u);
    forall p | 0 <= p < 36 && p !in HYPHENS ensures '0' <= text[p] <= '9' || 'a' <= text[p] <= 'f' {
      PlaceHoldsADigit(p);
      HexIsLower(u[DigitAt(p)]);
    }
  }

  lemma HexIsLower(n: nat)
    requires n < 16
    ensures '0' <= HexOf(n) <= '9' || 'a' <= HexOf(n) <= 'f'
  {
  }

  lemma PlaceHoldsADigit(p: nat)
    requires p < 36 && p !in HYPHENS
    ensures DigitAt(p) < 32 && Place(DigitAt(p)) == p
  {
    assert p != 8 && p != 13 && p != 18 && p != 23;
  }

  lemma LowerHexReadsBack(c: char)
    requires '0' <= c <= '9' || 'a' <= c <= 'f'
    ensures DigitOf(c).Some? && HexOf(DigitOf(c).value) == c
  {
  }

  /** Printing gives back exactly the canonical ones of the texts that are read. */
  lemma ReadUuidIsPrintedIff(text: string)
    requires ParseUuid(text).Some?
    ensures PrintUuid(ParseUuid(text).value) == text <==> IsCanonical(text)
  {
    hide DigitOf, HexOf, Place, DigitAt;
    var u := ParseUuid(text).value;
    PrintedUuidIsCanonical(u);
    if IsCanonical(text) {
      var printed := PrintUuid(u);
      forall p | 0 <= p < 36 ensures printed[p] == text[p] {
        if p !in HYPHENS {
          PlaceHoldsADigit(p);
          LowerHexReadsBack(text[p]);
          assert u[DigitAt(p)] == DigitOf(text[Place(DigitAt(p))]).value;
        }
      }
    }
  }

  function LowerOf(c: char): char {
    if 'A' <= c <= 'Z' then c - 'A' + 'a' else c
  }

  lemma LowerAt(text: string, p: nat)
    requires p < |text|
    ensures |LowerAscii(text)| == |text| && LowerAscii(text)[p] == LowerOf(text[p])
  {
  }

  lemma CaseDoesNotMatter(c: char)
    ensures DigitOf(LowerOf(c)) == DigitOf(c)
    ensures LowerOf(c) == '-' <==> c == '-'
  {
  }

  lemma PlaceIsRead(u: Uuid, text: string, p: nat)
    requires p < 36 && |text| == 36 && LowerAscii(text) == PrintUuid(u)
    ensures DigitOf(text[p]) == DigitOf(PrintUuid(u)[p]) && (PrintUuid(u)[p] == '-' ==> text[p] == '-')
  {
    hide DigitOf, HexOf, DigitAt, LowerAscii, PrintUuid;
    LowerAt(text, p);
    CaseDoesNotMatter(text[p]);
  }

  lemma DigitIsRead(u: Uuid, text: string, i: nat)
    requires i < 32 && |text| == 36 && LowerAscii(text) == PrintUuid(u)
    ensures Place(i) < 36 && DigitOf(text[Place(i)]) == Some(u[i])
  {
    hide DigitOf, HexOf, Place, DigitAt, LowerAscii;
    PlacesMatch(i);
    PlaceIsRead(u, text, Place(i));
    HexReadsBack(u[i]);
  }

  lemma HyphenatedIsRead(u: Uuid, text: string)
    requires |text| == 36 && LowerAscii(text) == PrintUuid(u)
    ensures ReadHyphenated(text) == Some(u)
  {
    hide DigitOf, Place, LowerAscii, HexOf, DigitAt;
    forall p | p in HYPHENS ensures text[p] == '-' {
      PlaceIsRead(u, text, p);
    }
    hide PrintUuid;
    forall i | 0 <= i < 32 ensures Place(i) < 36 && DigitOf(text[Place(i)]) == Some(u[i]) {
      DigitIsRead(u, text, i);
    }
    var digits := seq(32, i requires 0 <= i < 32 => text[Place(i)]);
    assert forall i :: 0 <= i < 32 ==> digits[i] == text[Place(i)];
    assert seq(32, i requires 0 <= i < 32 => DigitOf(digits[i]).value) == u;
  }

  /** A UUID is read in either case, with its hyphens alone, in braces or after `urn:uuid:`, and as bare digits. */
  lemma SpellingsAreRead(u: Uuid, text: string)
    requires LowerAscii(text) == PrintUuid(u)
    ensures ParseUuid(text) == Some(u)
    ensures ParseUuid("{" + text + "}") == Some(u)
    ensures ParseUuid("urn:uuid:" + text) == Some(u)
    ensures ParseUuid(seq(32, i requires 0 <= i < 32 => HexOf(u[i]))) == Some(u)
  {
    hide ReadHyphenated, HexOf, DigitOf, LowerAscii, PrintUuid;
    assert |text| == 36 by { LowerKeepsLength(text); }
    HyphenatedIsRead(u, text);
    var braced, named := "{" + text + "}", "urn:uuid:" + text;
    assert braced[0] == '{' && braced[37] == '}' && braced[1..37] == text;
    assert named[..9] == "urn:uuid:" && named[9..] == text;
    var bare := seq(32, i requires 0 <= i < 32 => HexOf(u[i]));
    forall i | 0 <= i < 32 ensures DigitOf(bare[i]) == Some(u[i]) {
      HexReadsBack(u[i]);
    }
    assert seq(32, i requires 0 <= i < 32 => DigitOf(bare[i]).value) == u;
  }

  lemma LowerKeepsLength(text: string)
    ensures |LowerAscii(text)| == |text|
  {
  }

  // ----- names

  datatype Urn = Urn(prefix: string, environment: string, service: string, model: string, id: Uuid)

  predicate IsSegment(segment: string) {
    segment != "" && !HasSeparator(segment)
  }

  /** What `with_prefix` accepts. */
  predicate IsUrn(u: Urn) {
    IsSegment(u.prefix) && IsSegment(u.environment) && IsSegment(u.service) && IsSegment(u.model)
  }

  /** `Display` */
  function Print(u: Urn): string {
    u.prefix + "::" + u.environment + "::" + u.service + "::" + u.model + "::" + PrintUuid(u.id)
  }

  /** `FromStr` */
  function Parse(raw: string): (r: Option<Urn>)
    ensures r.Some? ==> IsUrn(r.value)
  {
    var segments := Split(raw);
    if |segments| != 5 then None
    else
      match ParseUuid(segments[4])
      case None => None
      case Some(id) =>
        var u := Urn(segments[0], segments[1], segments[2], segments[3], id);
        if IsUrn(u) then Some(u) else None
  }

  function Segments(u: Urn): seq<string> {
    [u.prefix, u.environment, u.service, u.model, PrintUuid(u.id)]
  }

  lemma PrintJoins(u: Urn)
    ensures Print(u) == Join(Segments(u))
  {
    var s := Segments(u);
    assert s[1..] == [u.environment, u.service, u.model, PrintUuid(u.id)];
    assert s[1..][1..] == [u.service, u.model, PrintUuid(u.id)];
    assert s[1..][1..][1..] == [u.model, PrintUuid(u.id)];
    assert s[1..][1..][1..][1..] == [PrintUuid(u.id)];
    assert Join(s[1..][1..][1..]) == u.model + "::" + PrintUuid(u.id);
    assert Join(s[1..][1..]) == u.service + "::" + (u.model + "::" + PrintUuid(u.id));
    assert Join(s[1..]) == u.environment + "::" + (u.service + "::" + (u.model + "::" + PrintUuid(u.id)));
    assert Print(u) == u.prefix + "::" + Join(s[1..]);
  }

  lemma PrintedUuidHasNoSeparator(u: Uuid)
    ensures !HasSeparator(PrintUuid(u))
  {
    PrintedUuidIsCanonical(u);
    var text := PrintUuid(u);
    forall i ensures !SeparatorAt(text, i) {
      if 0 <= i < 36 {
        assert text[i] != ':';
      }
    }
  }

  predicate EndsNoSegmentInColon(u: Urn) {
    !EndsInColon(u.prefix) && !EndsInColon(u.environment) && !EndsInColon(u.service) && !EndsInColon(u.model)
  }

  lemma SegmentsAreCleanIff(u: Urn)
    requires IsUrn(u)
    ensures AreClean(Segments(u)) <==> EndsNoSegmentInColon(u)
  {
    hide HasSeparator, EndsInColon;
    PrintedUuidHasNoSeparator(u.id);
    var s := Segments(u);
    if AreClean(s) {
      assert IsClean(s[0]) && IsClean(s[1]) && IsClean(s[2]) && IsClean(s[3]);
    }
  }

  /** A name that was accepted is read back from its own text exactly when none of its segments ends in a
      colon: a colon at the end of one moves to the start of the next. */
  lemma ParseUndoesPrintIff(u: Urn)
    requires IsUrn(u)
    ensures Parse(Print(u)) == Some(u) <==> EndsNoSegmentInColon(u)
  {
    hide Split, Join, ParseUuid, AreClean, IsSegment, PrintUuid, EndsInColon;
    PrintJoins(u);
    SegmentsAreCleanIff(u);
    SplitUndoesJoinIff(Segments(u));
    PrintedUuidIsRead(u.id);
    if Parse(Print(u)) == Some(u) {
      SplitIsClean(Print(u));
      CleanFourSegments(Split(Print(u)));
    }
  }

  lemma CleanFourSegments(s: seq<string>)
    requires AreClean(s) && |s| == 5
    ensures !EndsInColon(s[0]) && !EndsInColon(s[1]) && !EndsInColon(s[2]) && !EndsInColon(s[3])
  {
    hide EndsInColon, HasSeparator;
    assert IsClean(s[0]) && IsClean(s[1]) && IsClean(s[2]) && IsClean(s[3]);
  }

  /** Of every text that is accepted: it is printed back exactly when its UUID is canonical. */
  lemma PrintUndoesParseIff(raw: string)
    requires Parse(raw).Some?
    ensures Print(Parse(raw).value) == raw <==> IsCanonical(Split(raw)[4])
  {
    hide Split, Join, ParseUuid, IsCanonical, IsSegment, PrintUuid;
    var u, s := Parse(raw).value, Split(raw);
    PrintJoins(u);
    SplitIsClean(raw);
    ReadUuidIsPrintedIff(s[4]);
    assert Segments(u) == s[..4] + [PrintUuid(u.id)];
    if Print(u) == raw {
      SegmentsAreCleanIff(u);
      CleanFourSegments(s);
      SplitUndoesJoinIff(Segments(u));
    } else {
      assert Segments(u) != s;
    }
  }

  /** Whatever is read, its text is read as the same name again. */
  lemma ParsedNamesAreStable(raw: string)
    requires Parse(raw).Some?
    ensures Parse(Print(Parse(raw).value)) == Parse(raw)
  {
    hide Split, ParseUuid, IsSegment, EndsInColon, AreClean;
    SplitIsClean(raw);
    CleanFourSegments(Split(raw));
    ParseUndoesPrintIff(Parse(raw).value);
  }

  /** How a colon moves: two different names, both accepted, with one text. */
  lemma TrailingColonMoves(u: Urn)
    requires IsUrn(u) && !EndsInColon(u.environment) && u.service[0] != ':'
    ensures var a, b := u.(environment := u.environment + ":"), u.(service := ":" + u.service);
      a != b && IsUrn(a) && IsUrn(b) && Print(a) == Print(b) && Parse(Print(a)) != Some(a)
  {
    hide PrintUuid, Parse;
    var a, b := u.(environment := u.environment + ":"), u.(service := ":" + u.service);
    assert |a.environment| != |b.environment|;
    OneColonMore(u.environment, u.service);
    assert u.environment + ":" + "::" + u.service == u.environment + "::" + (":" + u.service);
    SameText(u.prefix + "::", a.environment + "::" + a.service, b.environment + "::" + b.service,
             "::" + u.model + "::" + PrintUuid(u.id));
    assert Print(a) == u.prefix + "::" + (a.environment + "::" + a.service) + ("::" + u.model + "::" + PrintUuid(u.id));
    assert Print(b) == u.prefix + "::" + (b.environment + "::" + b.service) + ("::" + u.model + "::" + PrintUuid(u.id));
    ParseUndoesPrintIff(a);
  }

  lemma SameText(before: string, a: string, b: string, after: string)
    requires a == b
    ensures before + a + after == before + b + after
  {
  }

  lemma OneColonMore(before: string, after: string)
    requires IsSegment(before) && IsSegment(after) && !EndsInColon(before) && after[0] != ':'
    ensures IsSegment(before + ":") && IsSegment(":" + after) && EndsInColon(before + ":")
  {
    var a, b := before + ":", ":" + after;
    forall i | 0 <= i < |a| ensures !SeparatorAt(a, i) {
      assert i < |before| ==> !SeparatorAt(before, i);
    }
    forall i | 0 <= i < |b| ensures !SeparatorAt(b, i) {
      assert i > 0 ==> !SeparatorAt(after, i - 1);
    }
  }
}
