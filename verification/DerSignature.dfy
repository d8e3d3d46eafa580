/** From a DER signature to the JOSE one (scripts/asc.py, `der_to_raw_signature`). DER and BER are those of
    X.690, the JOSE signature that of section 3.4 of RFC 7518. */
module DerSignature {
  import opened Wire
  import opened WireLaws

  /** How the script ends: with bytes, with its own message, or with Python's `IndexError`. */
  datatype Result = Raw(bytes: seq<Byte>) | Died | OutOfRange

  // ----- the script

  /** A Python slice, which is cut off at the end of the bytes. */
  function Slice(bytes: seq<Byte>, from: nat, to: nat): seq<Byte>
    requires from <= to
  {
    if from >= |bytes| then [] else if to > |bytes| then bytes[from..] else bytes[from..to]
  }

  /** `lstrip(b"\x00")` */
  function Stripped(bytes: seq<Byte>): seq<Byte> {
    if bytes != [] && bytes[0] == 0 then Stripped(bytes[1..]) else bytes
  }

  function Zeros(n: nat): seq<Byte> {
    if n == 0 then [] else [0] + Zeros(n - 1)
  }

  /** `rjust(32, b"\x00")`, which never cuts. */
  function Justified(bytes: seq<Byte>): seq<Byte> {
    if |bytes| >= 32 then bytes else Zeros(32 - |bytes|) + bytes
  }

  /** An integer's contents, stripped of sign padding and padded to 32 bytes. */
  function Padded(contents: seq<Byte>): seq<Byte> {
    Justified(Stripped(contents))
  }

  /** `read_integer`: the padded value and the position after it. */
  function ReadInteger(der: seq<Byte>, pos: nat): (Result, nat) {
    if pos >= |der| then (OutOfRange, pos)
    else if der[pos] != 0x02 then (Died, pos)
    else if pos + 1 >= |der| then (OutOfRange, pos)
    else (Raw(Padded(Slice(der, pos + 2, pos + 2 + der[pos + 1]))), pos + 2 + der[pos + 1])
  }

  function Converted(der: seq<Byte>): Result {
    if der == [] || der[0] != 0x30 then Died
    else if |der| == 1 then OutOfRange
    else
      var start := if der[1] < 0x80 then 2 else 2 + (der[1] - 0x80);
      match ReadInteger(der, start)
      case (Raw(r), next) =>
        (match ReadInteger(der, next).0
         case Raw(s) => Raw(r + s)
         case problem => problem)
      case (problem, _) => problem
  }

  /** `der_to_raw_signature` */
  method DerToRawSignature(der: seq<Byte>) returns (out: Result)
    ensures out == Converted(der)
  {
    if der == [] || der[0] != 0x30 { return Died; }
    if |der| == 1 { return OutOfRange; }
    var index := if der[1] < 0x80 then 2 else 2 + (der[1] - 0x80);
    var r: Result;
    r, index := ReadInteger(der, index).0, ReadInteger(der, index).1;
    if !r.Raw? { return r; }
    var s := ReadInteger(der, index).0;
    if !s.Raw? { return s; }
    out := Raw(r.bytes + s.bytes);
  }

  // ----- the standard

  /** The fewest base-256 digits of a number. */
  function Digits(n: nat): (d: seq<Byte>)
    ensures d != []
  {
    if n < 256 then [n] else Digits(n / 256) + [n % 256]
  }

  /** The contents of the INTEGER of a number: two's complement, in the fewest octets (section 8.3). */
  function Contents(n: nat): seq<Byte> {
    if Digits(n)[0] >= 0x80 then [0] + Digits(n) else Digits(n)
  }

  function Integer(contents: seq<Byte>): seq<Byte>
    requires |contents| < 256
  {
    [0x02, |contents|] + contents
  }

  /** A length in the definite form, as short as can be (sections 8.1.3 and 10.1). */
  function LengthOctets(n: nat): seq<Byte>
    requires n < 0x1_0000
  {
    if n < 0x80 then [n] else if n < 0x100 then [0x81, n] else [0x82, n / 0x100, n % 0x100]
  }

  function DerSequence(body: seq<Byte>): seq<Byte>
    requires |body| < 0x1_0000
  {
    [0x30] + LengthOctets(|body|) + body
  }

  const TWO_256: nat := Pow256(32)

  // ----- values survive

  lemma {:induction false} DigitsAreTheNumber(n: nat, width: nat)
    requires n < Pow256(width) && width > 0
    ensures FromBigEndian(Digits(n)) == n && |Digits(n)| <= width
  {
    var d := Digits(n);
    assert d[..|d| - 1] == if n < 256 then [] else Digits(n / 256);
    if n >= 256 {
      assert width > 1 by { assert Pow256(0) == 1; }
      DigitsAreTheNumber(n / 256, width - 1);
    }
  }

  lemma {:induction false} LeadingZero(bytes: seq<Byte>)
    ensures FromBigEndian([0] + bytes) == FromBigEndian(bytes)
  {
    var all := [0] + bytes;
    if bytes != [] {
      LeadingZero(bytes[..|bytes| - 1]);
      assert all[..|all| - 1] == [0] + bytes[..|bytes| - 1];
    } else {
      assert all[..0] == [];
    }
  }

  lemma {:induction false} LeadingZeros(n: nat, bytes: seq<Byte>)
    ensures |Zeros(n)| == n && FromBigEndian(Zeros(n) + bytes) == FromBigEndian(bytes)
  {
    hide FromBigEndian;
    if n == 0 {
      assert [] + bytes == bytes;
    } else {
      LeadingZeros(n - 1, bytes);
      LeadingZero(Zeros(n - 1) + bytes);
      assert Zeros(n) + bytes == [0] + (Zeros(n - 1) + bytes);
    }
  }

  lemma {:induction false} StrippingKeepsTheValue(bytes: seq<Byte>)
    ensures FromBigEndian(Stripped(bytes)) == FromBigEndian(bytes)
    ensures Stripped(bytes) == [] || Stripped(bytes)[0] != 0
  {
    if bytes != [] && bytes[0] == 0 {
      StrippingKeepsTheValue(bytes[1..]);
      LeadingZero(bytes[1..]);
      assert bytes == [0] + bytes[1..];
    }
  }

  /** More than `width` digits without a leading zero are too great for `width`. */
  lemma {:induction false} LongIsGreat(bytes: seq<Byte>, width: nat)
    requires |bytes| > width && bytes[0] != 0
    ensures FromBigEndian(bytes) >= Pow256(width)
    decreases |bytes|
  {
    var most := bytes[..|bytes| - 1];
    if width > 0 {
      LongIsGreat(most, width - 1);
    } else if |bytes| > 1 {
      LongIsGreat(most, 0);
    }
  }

  /** Padding keeps the value of any contents, and gives the 32-byte form exactly of the values that have one. */
  lemma PaddingKeepsTheValue(contents: seq<Byte>)
    ensures FromBigEndian(Padded(contents)) == FromBigEndian(contents)
    ensures |Padded(contents)| == 32 <==> FromBigEndian(contents) < TWO_256
    ensures FromBigEndian(contents) < TWO_256 ==> Padded(contents) == BigEndian(FromBigEndian(contents), 32)
  {
    hide FromBigEndian, BigEndian, Stripped;
    var stripped := Stripped(contents);
    StrippingKeepsTheValue(contents);
    LeadingZeros(if |stripped| >= 32 then 0 else 32 - |stripped|, stripped);
    if |stripped| > 32 {
      LongIsGreat(stripped, 32);
    }
    BytesReadBack(Padded(contents));
  }

  // ----- signatures

  /** A header: a short length, or a long one with as many octets as it says. */
  predicate IsHeader(header: seq<Byte>) {
    |header| >= 2 && header[0] == 0x30
    && |header| == if header[1] < 0x80 then 2 else 2 + (header[1] - 0x80)
  }

  lemma IntegerIsRead(der: seq<Byte>, pos: nat, contents: seq<Byte>)
    requires |contents| < 256 && At(der, pos, Integer(contents))
    ensures ReadInteger(der, pos) == (Raw(Padded(contents)), pos + 2 + |contents|)
  {
    hide Padded;
    var bytes := Integer(contents);
    assert der[pos..pos + |bytes|][0] == 0x02 && der[pos..pos + |bytes|][1] == |contents|;
    assert der[pos + 2..pos + 2 + |contents|] == der[pos..pos + |bytes|][2..];
  }

  /** Any header and any contents, in DER or not: the two values, padded; what follows is not looked at. */
  lemma SignatureIsRead(header: seq<Byte>, r: seq<Byte>, s: seq<Byte>, more: seq<Byte>)
    requires IsHeader(header) && |r| < 256 && |s| < 256
    ensures Converted(header + Integer(r) + Integer(s) + more) == Raw(Padded(r) + Padded(s))
  {
    hide Padded, ReadInteger, Integer;
    var der := header + Integer(r) + Integer(s) + more;
    assert |Integer(r)| == 2 + |r| && |Integer(s)| == 2 + |s| by { IntegerLength(r); IntegerLength(s); }
    assert At(der, |header|, Integer(r)) && At(der, |header| + 2 + |r|, Integer(s));
    IntegerIsRead(der, |header|, r);
    IntegerIsRead(der, |header| + 2 + |r|, s);
    assert der[0] == header[0] && der[1] == header[1];
  }

  lemma IntegerLength(contents: seq<Byte>)
    requires |contents| < 256
    ensures |Integer(contents)| == 2 + |contents|
  {
  }

  lemma ContentsAreTheNumber(n: nat)
    requires n < TWO_256
    ensures FromBigEndian(Contents(n)) == n && |Contents(n)| <= 33
    ensures Contents(n)[0] < 0x80 && (|Contents(n)| > 1 && Contents(n)[0] == 0 ==> Contents(n)[1] >= 0x80)
  {
    hide FromBigEndian, Pow256;
    DigitsAreTheNumber(n, 32);
    DigitsDoNotStartWithZero(n);
    LeadingZero(Digits(n));
  }

  lemma {:induction false} DigitsDoNotStartWithZero(n: nat)
    ensures Digits(n)[0] == 0 ==> Digits(n) == [0]
  {
    if n >= 256 {
      DigitsDoNotStartWithZero(n / 256);
      assert Digits(n)[0] == Digits(n / 256)[0];
      if Digits(n / 256)[0] == 0 {
        DigitsAreTheNumberOf(n / 256);
      }
    }
  }

  lemma {:induction false} DigitsAreTheNumberOf(n: nat)
    ensures FromBigEndian(Digits(n)) == n
  {
    var d := Digits(n);
    if n >= 256 {
      DigitsAreTheNumberOf(n / 256);
      assert d[..|d| - 1] == Digits(n / 256);
    } else {
      assert d[..0] == [];
    }
  }

  /** What every signature in DER becomes: the two numbers, 32 bytes each, in order. */
  lemma DerBecomesJose(r: nat, s: nat)
    requires r < TWO_256 && s < TWO_256
    ensures |Contents(r)| < 256 && |Contents(s)| < 256
    ensures Converted(DerSequence(Integer(Contents(r)) + Integer(Contents(s)))) == Raw(BigEndian(r, 32) + BigEndian(s, 32))
  {
    hide Contents, Padded, BigEndian, FromBigEndian, Converted, Digits;
    ContentsAreTheNumber(r);
    ContentsAreTheNumber(s);
    var a, b := Integer(Contents(r)), Integer(Contents(s));
    var header := [0x30] + LengthOctets(|a + b|);
    assert |a + b| < 0x80;
    assert DerSequence(a + b) == header + a + b + [];
    SignatureIsRead(header, Contents(r), Contents(s), []);
    PaddingKeepsTheValue(Contents(r));
    PaddingKeepsTheValue(Contents(s));
  }

  /** The result has JOSE's 64 bytes exactly when both numbers fit 32. */
  lemma JoseHas64BytesIff(header: seq<Byte>, r: seq<Byte>, s: seq<Byte>, more: seq<Byte>)
    requires IsHeader(header) && |r| < 256 && |s| < 256
    ensures var out := Converted(header + Integer(r) + Integer(s) + more);
      out.Raw? && (|out.bytes| == 64 <==> FromBigEndian(r) < TWO_256 && FromBigEndian(s) < TWO_256)
  {
    hide FromBigEndian, BigEndian, Converted, Stripped;
    SignatureIsRead(header, r, s, more);
    PaddingKeepsTheValue(r);
    PaddingKeepsTheValue(s);
    PaddingFills(r);
    PaddingFills(s);
  }

  lemma PaddingFills(contents: seq<Byte>)
    ensures |Padded(contents)| >= 32
  {
    hide FromBigEndian, Stripped, Zeros;
    LeadingZeros(if |Stripped(contents)| >= 32 then 0 else 32 - |Stripped(contents)|, Stripped(contents));
  }

  /** A signature cut off inside its second number is not noticed: the bytes that are there are padded. */
  lemma CutOffIsNotNoticed(header: seq<Byte>, r: seq<Byte>, s: seq<Byte>, n: nat)
    requires IsHeader(header) && |r| < 256 && |s| < 256 && n < |s|
    ensures Converted(header + Integer(r) + Integer(s)[..2 + n]) == Raw(Padded(r) + Padded(s[..n]))
  {
    hide Padded, ReadInteger, Integer;
    IntegerLength(r);
    IntegerLength(s);
    var cut := Integer(s)[..2 + n];
    var der := header + Integer(r) + cut;
    assert At(der, |header|, Integer(r));
    IntegerIsRead(der, |header|, r);
    assert der[|header| + 2 + |r|..] == cut;
    CutIntegerIsRead(der, |header| + 2 + |r|, s, n);
    assert der[0] == header[0] && der[1] == header[1];
  }

  lemma CutIntegerIsRead(der: seq<Byte>, pos: nat, s: seq<Byte>, n: nat)
    requires |s| < 256 && n < |s| && pos <= |der| && der[pos..] == Integer(s)[..2 + n]
    ensures ReadInteger(der, pos).0 == Raw(Padded(s[..n]))
  {
    hide Padded;
    assert der[pos..][0] == 0x02 && der[pos..][1] == |s|;
    assert der[pos..][2..] == s[..n];
    assert der[pos + 2..] == der[pos..][2..];
  }
}
