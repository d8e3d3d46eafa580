/** What the bytes are: the format itself, which both sides have to agree on, told without the writer and the
    reader (clients/apple/PessimalFFI/Sources/PessimalFFI.swift). */
module WireFormat {
  import opened Wire
  import opened WireLaws

  // ----- numbers

  lemma SevenBytes()
    ensures 0x80 * Pow256(7) == TWO_63
  {
    Widths();
  }

  /** The first of eight bytes holds the sign. */
  lemma SignIsInTheFirstByte(bytes: seq<Byte>)
    requires |bytes| == 8
    ensures FromBigEndian(bytes) >= TWO_63 <==> bytes[0] >= 0x80
    ensures FromBigEndian(bytes) < TWO_64
  {
    hide FromBigEndian, Pow256;
    Widths();
    SevenBytes();
    assert bytes == [bytes[0]] + bytes[1..];
    FirstByteCountsMost(bytes[0], bytes[1..]);
    if bytes[0] >= 0x80 {
      TimesIsMonotone(0x80, bytes[0], Pow256(7));
    } else {
      TimesIsMonotone(bytes[0] + 1, 0x80, Pow256(7));
    }
  }

  lemma TimesIsMonotone(a: int, b: int, weight: int)
    requires a <= b && weight >= 0
    ensures a * weight <= b * weight
    ensures (a + 1) * weight == a * weight + weight
    ensures (a - 1) * weight == a * weight - weight
  {
  }

  /** An `Int64` goes over the wire as two's complement, the most significant byte first. */
  lemma Int64IsWritten(n: int)
    requires Fits(I64, Number(n))
    ensures var bytes := Enc(I64, Number(n));
      |bytes| == 8 && FromBigEndian(bytes) == (if n >= 0 then n else n + 0x1_0000_0000_0000_0000)
      && (bytes[0] >= 0x80 <==> n < 0)
  {
    hide FromBigEndian, BigEndian, Pow256;
    Widths();
    BigEndianReadsBack(Pattern(n), 8);
    SignIsInTheFirstByte(Enc(I64, Number(n)));
  }

  /** Any eight bytes are read as the one `Int64` that is congruent to them, negative exactly with the first bit set. */
  lemma Int64IsRead(data: seq<Byte>, offset: nat)
    requires offset + 8 <= |data|
    ensures var r := Dec(I64, data, offset); var u := FromBigEndian(data[offset..offset + 8]);
      r.Done? && r.next == offset + 8 && r.value.Number?
      && -0x8000_0000_0000_0000 <= r.value.n < 0x8000_0000_0000_0000
      && (r.value.n == u || r.value.n == u - 0x1_0000_0000_0000_0000)
      && (r.value.n < 0 <==> data[offset] >= 0x80)
  {
    hide FromBigEndian;
    SignIsInTheFirstByte(data[offset..offset + 8]);
  }

  /** Unsigned numbers and the patterns of doubles are big-endian in four and in eight bytes, and a boolean is the
      byte 1 or 0. */
  lemma NumbersAreWritten(n: nat, b: bool)
    ensures Fits(U32, Number(n)) ==> |Enc(U32, Number(n))| == 4 && FromBigEndian(Enc(U32, Number(n))) == n
    ensures Fits(F64, Number(n)) ==> |Enc(F64, Number(n))| == 8 && FromBigEndian(Enc(F64, Number(n))) == n
    ensures Enc(Bool, Truth(true)) == [1] && Enc(Bool, Truth(false)) == [0]
  {
    hide FromBigEndian, BigEndian, Pow256;
    Widths();
    if Fits(U32, Number(n)) {
      BigEndianReadsBack(n, 4);
    }
    if Fits(F64, Number(n)) {
      BigEndianReadsBack(n, 8);
    }
  }

  // ----- what is counted and tagged

  /** Four bytes that say `n` come first, and then the rest. */
  ghost predicate StartsWithCount(bytes: seq<Byte>, n: nat, rest: seq<Byte>) {
    |bytes| == 4 + |rest| && FromBigEndian(bytes[..4]) == n && bytes[4..] == rest
  }

  lemma CountComesFirst(n: nat, rest: seq<Byte>)
    requires n < 0x1_0000_0000
    ensures StartsWithCount(BigEndian(n, 4) + rest, n, rest)
  {
    hide FromBigEndian, BigEndian, Pow256;
    Widths();
    BigEndianReadsBack(n, 4);
    var bytes := BigEndian(n, 4) + rest;
    assert bytes[..4] == BigEndian(n, 4) && bytes[4..] == rest;
  }

  /** A string is the number of its bytes and its bytes; an optional value a zero byte, or a byte 1 and the value. */
  lemma TextsAndOptionalsAreWritten(bytes: seq<Byte>, element: Shape, v: Val)
    requires IsCount(|bytes|) && Fits(element, v)
    ensures StartsWithCount(Enc(Text, Bytes(bytes)), |bytes|, bytes)
    ensures Enc(Optional(element), Absent) == [0]
    ensures Enc(Optional(element), Present(v)) == [1] + Enc(element, v)
  {
    hide BigEndian, StartsWithCount;
    CountComesFirst(|bytes|, bytes);
  }

  /** An enum is the position of its case, counted from 1, and what the case carries. */
  lemma CasesAreWritten(cases: seq<Field>, i: nat, v: Val)
    requires i < |cases| && IsCount(i + 1) && (forall j :: 0 <= j < i ==> cases[j].name != cases[i].name)
    requires Fits(cases[i].shape, v)
    ensures Fits(Enum(cases), Case(cases[i].name, v))
    ensures StartsWithCount(Enc(Enum(cases), Case(cases[i].name, v)), i + 1, Enc(cases[i].shape, v))
  {
    hide BigEndian, StartsWithCount, IndexOf;
    FirstOfTheName(cases, i);
    CountComesFirst(i + 1, Enc(cases[i].shape, v));
  }

  lemma {:induction false} FirstOfTheName(cases: seq<Field>, i: nat)
    requires i < |cases| && forall j :: 0 <= j < i ==> cases[j].name != cases[i].name
    ensures IndexOf(cases, cases[i].name) == i
  {
    if i > 0 {
      assert cases[0].name != cases[i].name;
      forall j | 0 <= j < i - 1 ensures cases[1..][j].name != cases[1..][i - 1].name {}
      FirstOfTheName(cases[1..], i - 1);
    }
  }

  // ----- one after the other

  lemma {:induction false} ItemsFitPart(element: Shape, vs: seq<Val>, k: nat)
    requires AllFit(element, vs) && k <= |vs|
    ensures AllFit(element, vs[..k]) && (k < |vs| ==> Fits(element, vs[k]))
    decreases |vs|
  {
    hide Fits;
    if k > 0 {
      ItemsFitPart(element, vs[1..], k - 1);
      assert vs[..k][1..] == vs[1..][..k - 1];
    }
  }

  lemma {:induction false} OneMoreItemIsWritten(element: Shape, vs: seq<Val>, k: nat)
    requires k < |vs| && AllFit(element, vs)
    requires AllFit(element, vs[..k]) && AllFit(element, vs[..k + 1]) && Fits(element, vs[k])
    ensures EncItems(element, vs[..k + 1]) == EncItems(element, vs[..k]) + Enc(element, vs[k])
    decreases k
  {
    hide Fits, Enc;
    var rest := vs[1..];
    if k == 0 {
      assert vs[..1][1..] == [];
    } else {
      ItemsFitPart(element, rest, k - 1);
      ItemsFitPart(element, rest, k);
      assert vs[..k + 1][1..] == rest[..k] && vs[..k][1..] == rest[..k - 1];
      OneMoreItemIsWritten(element, rest, k - 1);
    }
  }

  /** A sequence is the number of its items and the items in order: each stands where the sequence of those before
      it would end. */
  lemma ItemsAreWritten(element: Shape, vs: seq<Val>, k: nat)
    requires Fits(Sequence(element), Items(vs)) && k < |vs|
    ensures Fits(Sequence(element), Items(vs[..k])) && Fits(Sequence(element), Items(vs[..k + 1])) && Fits(element, vs[k])
    ensures StartsWithCount(Enc(Sequence(element), Items(vs)), |vs|, EncItems(element, vs))
    ensures |Enc(Sequence(element), Items([]))| == 4
    ensures Enc(Sequence(element), Items(vs[..k + 1]))[4..]
      == Enc(Sequence(element), Items(vs[..k]))[4..] + Enc(element, vs[k])
  {
    hide AllFit, EncItems, BigEndian, FromBigEndian;
    ItemsFitPart(element, vs, k);
    ItemsFitPart(element, vs, k + 1);
    assert EncItems(element, []) == [] by { NoItems(element); }
    CountComesFirst(|vs|, EncItems(element, vs));
    CountComesFirst(k, EncItems(element, vs[..k]));
    CountComesFirst(k + 1, EncItems(element, vs[..k + 1]));
    OneMoreItemIsWritten(element, vs, k);
  }

  lemma NoItems(element: Shape)
    ensures AllFit(element, []) && EncItems(element, []) == []
  {
  }

  lemma {:induction false} FieldsFitPart(fields: seq<Field>, m: map<string, Val>, k: nat)
    requires FieldsFit(fields, m) && k <= |fields|
    ensures FieldsFit(fields[..k], m) && (k < |fields| ==> fields[k].name in m && Fits(fields[k].shape, m[fields[k].name]))
    decreases |fields|
  {
    hide Fits;
    if k > 0 {
      FieldsFitPart(fields[1..], m, k - 1);
      assert fields[..k][1..] == fields[1..][..k - 1];
    }
  }

  lemma {:induction false} OneMoreFieldIsWritten(fields: seq<Field>, m: map<string, Val>, k: nat)
    requires k < |fields| && FieldsFit(fields, m)
    requires FieldsFit(fields[..k], m) && FieldsFit(fields[..k + 1], m)
    requires fields[k].name in m && Fits(fields[k].shape, m[fields[k].name])
    ensures EncFields(fields[..k + 1], m) == EncFields(fields[..k], m) + Enc(fields[k].shape, m[fields[k].name])
    decreases k
  {
    hide Fits, Enc;
    var rest := fields[1..];
    if k == 0 {
      assert fields[..1][1..] == [];
    } else {
      FieldsFitPart(rest, m, k - 1);
      FieldsFitPart(rest, m, k);
      assert fields[..k + 1][1..] == rest[..k] && fields[..k][1..] == rest[..k - 1];
      OneMoreFieldIsWritten(rest, m, k - 1);
    }
  }

  /** A record is its fields in order, nothing before and nothing between them. */
  lemma FieldsAreWritten(fields: seq<Field>, m: map<string, Val>, k: nat)
    requires Fits(Record(fields), Fields(m)) && k < |fields|
    ensures Enc(Record(fields), Fields(m)) == EncFields(fields, m) && EncFields([], m) == []
    ensures FieldsFit(fields[..k], m) && FieldsFit(fields[..k + 1], m)
    ensures fields[k].name in m && Fits(fields[k].shape, m[fields[k].name])
    ensures EncFields(fields[..k + 1], m) == EncFields(fields[..k], m) + Enc(fields[k].shape, m[fields[k].name])
  {
    hide FieldsFit, EncFields;
    FieldsFitPart(fields, m, k);
    FieldsFitPart(fields, m, k + 1);
    OneMoreFieldIsWritten(fields, m, k);
    assert EncFields([], m) == [] by { NoFields(m); }
  }

  lemma NoFields(m: map<string, Val>)
    ensures FieldsFit([], m) && EncFields([], m) == []
  {
  }
}
