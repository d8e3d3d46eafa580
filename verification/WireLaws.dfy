/** Reading undoes writing, wherever the bytes stand; encodings are prefix-free; a buffer cut short is
    never taken for a value (clients/apple/PessimalFFI/Sources/PessimalFFI.swift). */
module WireLaws {
  import opened Wire

  // ----- integers

  lemma {:induction false} BigEndianReadsBack(n: nat, width: nat)
    requires n < Pow256(width)
    ensures FromBigEndian(BigEndian(n, width)) == n
  {
    if width > 0 {
      BigEndianReadsBack(n / 256, width - 1);
      assert BigEndian(n, width)[..width - 1] == BigEndian(n / 256, width - 1);
    }
  }

  /** The first byte is the most significant one. */
  lemma {:induction false} FirstByteCountsMost(first: Byte, rest: seq<Byte>)
    ensures FromBigEndian([first] + rest) == first * Pow256(|rest|) + FromBigEndian(rest)
  {
    var all := [first] + rest;
    if rest == [] {
      assert all[..0] == [];
    } else {
      var most := rest[..|rest| - 1];
      FirstByteCountsMost(first, most);
      assert all[..|all| - 1] == [first] + most;
      MovedUp(first, Pow256(|most|));
    }
  }

  lemma MovedUp(digit: int, weight: int)
    ensures 256 * (digit * weight) == digit * (256 * weight)
  {
  }

  lemma {:induction false} BytesReadBack(bytes: seq<Byte>)
    ensures BigEndian(FromBigEndian(bytes), |bytes|) == bytes
  {
    if bytes != [] {
      var most, last := bytes[..|bytes| - 1], bytes[|bytes| - 1];
      BytesReadBack(most);
      var n := FromBigEndian(bytes);
      assert n / 256 == FromBigEndian(most) && n % 256 == last;
      assert bytes == most + [last];
    }
  }

  lemma Widths()
    ensures Pow256(1) == 256 && Pow256(4) == 0x1_0000_0000 && Pow256(8) == TWO_64
  {
    assert Pow256(2) == 0x1_0000;
    assert Pow256(3) == 0x100_0000;
    assert Pow256(5) == 0x100_0000_0000;
    assert Pow256(6) == 0x1_0000_0000_0000;
    assert Pow256(7) == 0x100_0000_0000_0000;
  }

  // ----- bytes in a buffer

  predicate At(data: seq<Byte>, offset: nat, bytes: seq<Byte>) {
    offset + |bytes| <= |data| && data[offset..offset + |bytes|] == bytes
  }

  lemma AtInTwo(data: seq<Byte>, offset: nat, a: seq<Byte>, b: seq<Byte>)
    ensures At(data, offset, a + b) <==> At(data, offset, a) && At(data, offset + |a|, b)
  {
    if offset + |a + b| <= |data| {
      assert data[offset..offset + |a + b|] == data[offset..offset + |a|] + data[offset + |a|..offset + |a + b|];
      if At(data, offset, a + b) {
        assert data[offset..offset + |a + b|][..|a|] == a && data[offset..offset + |a + b|][|a|..] == b;
      }
    }
  }

  /** The buffer ends before the bytes do, and agrees with them until then. */
  predicate CutShort(data: seq<Byte>, offset: nat, bytes: seq<Byte>) {
    offset <= |data| < offset + |bytes| && data[offset..] == bytes[..|data| - offset]
  }

  lemma CutInTwo(data: seq<Byte>, offset: nat, a: seq<Byte>, b: seq<Byte>)
    requires CutShort(data, offset, a + b)
    ensures CutShort(data, offset, a) || (At(data, offset, a) && CutShort(data, offset + |a|, b))
  {
    var n := |data| - offset;
    if n < |a| {
      assert (a + b)[..n] == a[..n];
    } else {
      assert data[offset..][..|a|] == (a + b)[..n][..|a|] == a;
      assert data[offset..][|a|..] == (a + b)[..n][|a|..] == b[..n - |a|];
    }
  }

  lemma IntIsReadBack(n: nat, width: nat, data: seq<Byte>, offset: nat)
    requires n < Pow256(width)
    ensures At(data, offset, BigEndian(n, width)) ==> DecInt(width, data, offset) == Done(n, offset + width)
    ensures CutShort(data, offset, BigEndian(n, width)) ==> DecInt(width, data, offset) == Thrown(BufferOverflow)
  {
    BigEndianReadsBack(n, width);
  }

  lemma ByteIsReadBack(n: Byte, data: seq<Byte>, offset: nat)
    ensures At(data, offset, [n]) ==> DecInt(1, data, offset) == Done(n, offset + 1)
    ensures CutShort(data, offset, [n]) ==> DecInt(1, data, offset) == Thrown(BufferOverflow)
  {
    Widths();
    assert BigEndian(n, 0) == [];
    assert BigEndian(n, 1) == [n];
    IntIsReadBack(n, 1, data, offset);
  }

  lemma PatternReadsBack(n: int)
    requires -TWO_63 <= n < TWO_63
    ensures Signed(Pattern(n)) == n
  {
  }

  // ----- reading undoes writing

  /** A written value, wherever it stands in a buffer and whatever follows, is read back and the reader
      stops exactly at its end. */
  lemma {:induction false} WrittenIsRead(shape: Shape, v: Val, data: seq<Byte>, offset: nat)
    requires Fits(shape, v) && At(data, offset, Enc(shape, v))
    ensures Dec(shape, data, offset) == Done(v, offset + |Enc(shape, v)|)
    decreases shape, 0
  {
    hide BigEndian, FromBigEndian, At, DecInt, Pow256, DecItems, DecFields, EncItems, EncFields, AllFit, FieldsFit;
    Widths();
    match shape
    case U32 => IntIsReadBack(v.n, 4, data, offset);
    case I64 =>
      IntIsReadBack(Pattern(v.n), 8, data, offset);
      PatternReadsBack(v.n);
    case F64 => IntIsReadBack(v.n, 8, data, offset);
    case Bool => ByteIsReadBack(if v.b then 1 else 0, data, offset);
    case Text => TextIsRead(v.bytes, data, offset);
    case Optional(element) =>
      ByteIsReadBack(if v.Absent? then 0 else 1, data, offset);
      if v.Present? {
        AtInTwo(data, offset, [1], Enc(element, v.it));
        WrittenIsRead(element, v.it, data, offset + 1);
      }
    case Sequence(element) =>
      AtInTwo(data, offset, BigEndian(|v.vs|, 4), EncItems(element, v.vs));
      IntIsReadBack(|v.vs|, 4, data, offset);
      ItemsAreRead(element, v.vs, data, offset + 4);
    case Record(fields) =>
      FieldsAreRead(fields, v.m, data, offset);
      NamedAlone(fields, v.m);
    case Enum(cases) =>
      var i := IndexOf(cases, v.name);
      AtInTwo(data, offset, BigEndian(i + 1, 4), Enc(cases[i].shape, v.it));
      IntIsReadBack(i + 1, 4, data, offset);
      WrittenIsRead(cases[i].shape, v.it, data, offset + 4);
  }

  lemma TextIsRead(bytes: seq<Byte>, data: seq<Byte>, offset: nat)
    requires IsCount(|bytes|) && At(data, offset, BigEndian(|bytes|, 4) + bytes)
    ensures Dec(Text, data, offset) == Done(Bytes(bytes), offset + 4 + |bytes|)
  {
    hide BigEndian, FromBigEndian, DecInt, DecBytes, Pow256, At;
    Widths();
    AtInTwo(data, offset, BigEndian(|bytes|, 4), bytes);
    IntIsReadBack(|bytes|, 4, data, offset);
    BytesAreRead(bytes, data, offset + 4);
  }

  lemma BytesAreRead(bytes: seq<Byte>, data: seq<Byte>, offset: nat)
    requires IsCount(|bytes|) && At(data, offset, bytes)
    ensures DecBytes(|bytes|, data, offset) == Done(bytes, offset + |bytes|)
  {
  }

  lemma {:induction false} ItemsAreRead(shape: Shape, vs: seq<Val>, data: seq<Byte>, offset: nat)
    requires AllFit(shape, vs) && At(data, offset, EncItems(shape, vs))
    ensures DecItems(shape, |vs|, data, offset) == Done(vs, offset + |EncItems(shape, vs)|)
    decreases shape, |vs| + 1
  {
    hide At, Fits, Enc, Dec;
    if vs != [] {
      AtInTwo(data, offset, Enc(shape, vs[0]), EncItems(shape, vs[1..]));
      WrittenIsRead(shape, vs[0], data, offset);
      ItemsAreRead(shape, vs[1..], data, offset + |Enc(shape, vs[0])|);
      assert vs == [vs[0]] + vs[1..];
    }
  }

  /** The fields alone, of a map that may hold more. */
  function Alone(fields: seq<Field>, m: map<string, Val>): map<string, Val> {
    map n | n in Names(fields) && n in m :: m[n]
  }

  lemma NamedAlone(fields: seq<Field>, m: map<string, Val>)
    requires m.Keys == Names(fields)
    ensures Alone(fields, m) == m
  {
    hide Names;
  }

  lemma {:induction false} FieldsAreRead(fields: seq<Field>, m: map<string, Val>, data: seq<Byte>, offset: nat)
    requires FieldsFit(fields, m) && At(data, offset, EncFields(fields, m))
    ensures DecFields(fields, data, offset) == Done(Alone(fields, m), offset + |EncFields(fields, m)|)
    decreases fields, 0
  {
    hide At, Fits, Enc, Dec, Names, Alone;
    if fields == [] {
      AloneInTwo(fields, m);
    } else {
      var name, first := fields[0].name, Enc(fields[0].shape, m[fields[0].name]);
      AtInTwo(data, offset, first, EncFields(fields[1..], m));
      WrittenIsRead(fields[0].shape, m[name], data, offset);
      FieldsAreRead(fields[1..], m, data, offset + |first|);
      AloneInTwo(fields, m);
    }
  }

  lemma AloneInTwo(fields: seq<Field>, m: map<string, Val>)
    ensures fields == [] ==> Alone(fields, m) == map[]
    ensures fields != [] && fields[0].name in m ==>
      Alone(fields, m) == map[fields[0].name := m[fields[0].name]] + Alone(fields[1..], m)
  {
    hide Names;
    if fields == [] {
      NoNames();
    } else {
      FirstName(fields);
    }
  }

  lemma FirstName(fields: seq<Field>)
    requires fields != []
    ensures Names(fields) == Names(fields[1..]) + {fields[0].name}
  {
    assert fields == [fields[0]] + fields[1..];
    forall f | f in fields ensures f.name in Names(fields[1..]) + {fields[0].name} {}
  }

  // ----- a buffer that ends too early

  /** A strict prefix of an encoding overflows, whichever byte it ends before. */
  lemma {:induction false} CutShortOverflows(shape: Shape, v: Val, data: seq<Byte>, offset: nat)
    requires Fits(shape, v) && CutShort(data, offset, Enc(shape, v))
    ensures Dec(shape, data, offset) == Thrown(BufferOverflow)
    decreases shape, 0
  {
    hide BigEndian, FromBigEndian, At, CutShort, DecInt, Pow256, DecItems, DecFields, EncItems, EncFields, AllFit, FieldsFit;
    Widths();
    match shape
    case U32 => IntIsReadBack(v.n, 4, data, offset);
    case I64 => IntIsReadBack(Pattern(v.n), 8, data, offset);
    case F64 => IntIsReadBack(v.n, 8, data, offset);
    case Bool => ByteIsReadBack(if v.b then 1 else 0, data, offset);
    case Text => TextCutShort(v.bytes, data, offset);
    case Optional(element) =>
      ByteIsReadBack(if v.Absent? then 0 else 1, data, offset);
      if v.Present? {
        CutInTwo(data, offset, [1], Enc(element, v.it));
        if !CutShort(data, offset, [1]) {
          CutShortOverflows(element, v.it, data, offset + 1);
        }
      }
    case Sequence(element) =>
      var count := BigEndian(|v.vs|, 4);
      CutInTwo(data, offset, count, EncItems(element, v.vs));
      IntIsReadBack(|v.vs|, 4, data, offset);
      if !CutShort(data, offset, count) {
        ItemsCutShort(element, v.vs, data, offset + 4);
      }
    case Record(fields) => FieldsCutShort(fields, v.m, data, offset);
    case Enum(cases) =>
      var i := IndexOf(cases, v.name);
      var tag := BigEndian(i + 1, 4);
      CutInTwo(data, offset, tag, Enc(cases[i].shape, v.it));
      IntIsReadBack(i + 1, 4, data, offset);
      if !CutShort(data, offset, tag) {
        CutShortOverflows(cases[i].shape, v.it, data, offset + 4);
      }
  }

  lemma TextCutShort(bytes: seq<Byte>, data: seq<Byte>, offset: nat)
    requires IsCount(|bytes|) && CutShort(data, offset, BigEndian(|bytes|, 4) + bytes)
    ensures Dec(Text, data, offset) == Thrown(BufferOverflow)
  {
    hide BigEndian, FromBigEndian, DecInt, Pow256, At, CutShort, DecBytes;
    Widths();
    var count := BigEndian(|bytes|, 4);
    CutInTwo(data, offset, count, bytes);
    IntIsReadBack(|bytes|, 4, data, offset);
    if !CutShort(data, offset, count) {
      assert |count| == 4;
      BytesCutShort(bytes, data, offset + 4);
    }
  }

  lemma BytesCutShort(bytes: seq<Byte>, data: seq<Byte>, offset: nat)
    requires IsCount(|bytes|) && CutShort(data, offset, bytes)
    ensures DecBytes(|bytes|, data, offset) == Thrown(BufferOverflow)
  {
  }

  lemma {:induction false} ItemsCutShort(shape: Shape, vs: seq<Val>, data: seq<Byte>, offset: nat)
    requires AllFit(shape, vs) && CutShort(data, offset, EncItems(shape, vs))
    ensures DecItems(shape, |vs|, data, offset) == Thrown(BufferOverflow)
    decreases shape, |vs| + 1
  {
    hide At, Fits, Enc, Dec;
    if vs != [] {
      var first := Enc(shape, vs[0]);
      CutInTwo(data, offset, first, EncItems(shape, vs[1..]));
      if CutShort(data, offset, first) {
        CutShortOverflows(shape, vs[0], data, offset);
      } else {
        WrittenIsRead(shape, vs[0], data, offset);
        ItemsCutShort(shape, vs[1..], data, offset + |first|);
      }
    }
  }

  lemma {:induction false} FieldsCutShort(fields: seq<Field>, m: map<string, Val>, data: seq<Byte>, offset: nat)
    requires FieldsFit(fields, m) && CutShort(data, offset, EncFields(fields, m))
    ensures DecFields(fields, data, offset) == Thrown(BufferOverflow)
    decreases fields, 0
  {
    hide At, Fits, Enc, Dec;
    if fields != [] {
      var v := m[fields[0].name];
      var first := Enc(fields[0].shape, v);
      CutInTwo(data, offset, first, EncFields(fields[1..], m));
      if CutShort(data, offset, first) {
        CutShortOverflows(fields[0].shape, v, data, offset);
      } else {
        WrittenIsRead(fields[0].shape, v, data, offset);
        FieldsCutShort(fields[1..], m, data, offset + |first|);
      }
    }
  }

  // ----- whole buffers

  /** No encoding of a shape begins another one of the same shape. */
  lemma EncodingsArePrefixFree(shape: Shape, v: Val, w: Val)
    requires Fits(shape, v) && Fits(shape, w) && Enc(shape, v) <= Enc(shape, w)
    ensures v == w
  {
    hide Enc, Dec, Fits;
    var data := Enc(shape, w);
    assert At(data, 0, Enc(shape, v)) && At(data, 0, Enc(shape, w));
    WrittenIsRead(shape, v, data, 0);
    WrittenIsRead(shape, w, data, 0);
  }

  /** `lift` takes a value, all of it and nothing else. */
  lemma LiftUndoesLower(shape: Shape, v: Val, more: seq<Byte>, n: nat)
    requires Fits(shape, v) && n < |Enc(shape, v)|
    ensures Lift(shape, Enc(shape, v)) == Done(v, |Enc(shape, v)|)
    ensures more != [] ==> Lift(shape, Enc(shape, v) + more) == Thrown(IncompleteData)
    ensures Lift(shape, Enc(shape, v)[..n]) == Thrown(BufferOverflow)
  {
    hide Enc, Dec, Fits;
    var bytes := Enc(shape, v);
    assert At(bytes, 0, bytes) && At(bytes + more, 0, bytes);
    WrittenIsRead(shape, v, bytes, 0);
    WrittenIsRead(shape, v, bytes + more, 0);
    assert CutShort(bytes[..n], 0, bytes);
    CutShortOverflows(shape, v, bytes[..n], 0);
  }

  /** A negative count traps, however long the buffer is. */
  lemma NegativeCountTraps(n: int, element: Shape, more: seq<Byte>)
    requires -0x8000_0000 <= n < 0
    ensures Lift(Text, BigEndian(n + 0x1_0000_0000, 4) + more) == Trapped
    ensures Lift(Sequence(element), BigEndian(n + 0x1_0000_0000, 4) + more) == Trapped
  {
    hide BigEndian, DecInt, Dec;
    var bytes := BigEndian(n + 0x1_0000_0000, 4);
    Widths();
    assert At(bytes + more, 0, bytes);
    IntIsReadBack(n + 0x1_0000_0000, 4, bytes + more, 0);
    CountIsRead(bytes + more, element, n + 0x1_0000_0000);
  }

  lemma CountIsRead(data: seq<Byte>, element: Shape, count: nat)
    requires DecInt(4, data, 0) == Done(count, 4) && !IsCount(count)
    ensures Dec(Text, data, 0) == Trapped && Dec(Sequence(element), data, 0) == Trapped
  {
    hide DecInt;
  }

  // ----- writing after reading

  /** Two buffers that are read as the same value: reading is not one to one. */
  lemma ManyBytesAreTrue(b: Byte)
    requires b != 0
    ensures Lift(Bool, [b]) == Done(Truth(true), 1) && (b != 1 ==> Enc(Bool, Truth(true)) != [b])
  {
    ByteIsReadBack(b, [b], 0);
    assert At([b], 0, [b]);
  }

  /** A shape without booleans, which are the one thing that several bytes stand for. */
  predicate HoldsNoBool(shape: Shape)
    decreases shape, 0
  {
    match shape
    case Bool => false
    case Optional(element) => HoldsNoBool(element)
    case Sequence(element) => HoldsNoBool(element)
    case Record(fields) => HoldNoBool(fields)
    case Enum(cases) => HoldNoBool(cases)
    case _ => true
  }

  predicate HoldNoBool(fields: seq<Field>)
    decreases fields, 0
  {
    fields == [] || (HoldsNoBool(fields[0].shape) && HoldNoBool(fields[1..]))
  }

  /** No record names a field twice, and no enum a case. */
  predicate NamesEachOnce(shape: Shape)
    decreases shape, 0
  {
    match shape
    case Optional(element) => NamesEachOnce(element)
    case Sequence(element) => NamesEachOnce(element)
    case Record(fields) => NameEachOnce(fields)
    case Enum(cases) => NameEachOnce(cases)
    case _ => true
  }

  predicate NameEachOnce(fields: seq<Field>)
    decreases fields, 0
  {
    fields == []
    || (NamesEachOnce(fields[0].shape) && fields[0].name !in Names(fields[1..]) && NameEachOnce(fields[1..]))
  }

  lemma {:induction false} OneOfTheFields(fields: seq<Field>, i: nat)
    requires i < |fields|
    ensures HoldNoBool(fields) ==> HoldsNoBool(fields[i].shape)
    ensures NameEachOnce(fields) ==> NamesEachOnce(fields[i].shape) && IndexOf(fields, fields[i].name) == i
  {
    hide HoldsNoBool, NamesEachOnce;
    if i > 0 {
      OneOfTheFields(fields[1..], i - 1);
      assert fields[1..][i - 1] == fields[i];
      assert fields[i].name in Names(fields[1..]);
    }
  }

  /** The bytes from `offset` to `next` are those of the value, or -- where booleans are concerned -- as many. */
  ghost predicate Rewrites(data: seq<Byte>, offset: nat, next: nat, bytes: seq<Byte>, exactly: bool) {
    offset <= next <= |data| && |bytes| == next - offset && (exactly ==> data[offset..next] == bytes)
  }

  lemma RewritesInTwo(data: seq<Byte>, offset: nat, middle: nat, end: nat, a: seq<Byte>, b: seq<Byte>, exactly: bool)
    requires Rewrites(data, offset, middle, a, exactly) && Rewrites(data, middle, end, b, exactly)
    ensures Rewrites(data, offset, end, a + b, exactly)
  {
    assert data[offset..end] == data[offset..middle] + data[middle..end];
  }

  lemma IntIsRewritten(width: nat, data: seq<Byte>, offset: nat, exactly: bool)
    requires DecInt(width, data, offset).Done?
    ensures var r := DecInt(width, data, offset);
      r.value < Pow256(width) && r.next == offset + width <= |data|
      && Rewrites(data, offset, r.next, BigEndian(r.value, width), exactly)
  {
    hide BigEndian, FromBigEndian, Pow256;
    var bytes := data[offset..offset + width];
    assert |bytes| == width;
    BytesReadBack(bytes);
  }

  lemma ByteIsRewritten(data: seq<Byte>, offset: nat, exactly: bool)
    requires DecInt(1, data, offset).Done?
    ensures var r := DecInt(1, data, offset);
      r.value < 256 && r.next == offset + 1 <= |data| && Rewrites(data, offset, r.next, [r.value], exactly)
  {
    Widths();
    IntIsRewritten(1, data, offset, exactly);
    var n := DecInt(1, data, offset).value;
    assert BigEndian(n, 0) == [] && BigEndian(n, 1) == [n];
  }

  lemma SignedIsRewritten(u: nat)
    requires u < TWO_64
    ensures -TWO_63 <= Signed(u) < TWO_63 && Pattern(Signed(u)) == u
  {
  }

  /** Whatever is read is a value of the shape that is written in as many bytes, and in the very same ones
      where the shape holds no boolean. */
  lemma {:induction false} ReadIsRewritten(shape: Shape, data: seq<Byte>, offset: nat)
    requires Dec(shape, data, offset).Done? && offset <= |data| && NamesEachOnce(shape)
    ensures var r := Dec(shape, data, offset);
      Fits(shape, r.value) && Rewrites(data, offset, r.next, Enc(shape, r.value), HoldsNoBool(shape))
    decreases shape, 0
  {
    hide BigEndian, FromBigEndian, DecInt, Pow256, DecItems, DecFields, EncItems, EncFields, AllFit, FieldsFit,
         Rewrites, HoldNoBool, NameEachOnce, Names, IndexOf;
    Widths();
    var exactly := HoldsNoBool(shape);
    match shape
    case U32 => IntIsRewritten(4, data, offset, exactly);
    case I64 =>
      IntIsRewritten(8, data, offset, exactly);
      SignedIsRewritten(DecInt(8, data, offset).value);
    case F64 => IntIsRewritten(8, data, offset, exactly);
    case Bool => BoolIsRewritten(data, offset);
    case Text => TextIsRewritten(data, offset);
    case Optional(element) =>
      ByteIsRewritten(data, offset, exactly);
      var tag := DecInt(1, data, offset);
      if tag.value == 1 {
        ReadIsRewritten(element, data, tag.next);
        var r := Dec(element, data, tag.next);
        RewritesInTwo(data, offset, tag.next, r.next, [1], Enc(element, r.value), exactly);
      }
    case Sequence(element) =>
      IntIsRewritten(4, data, offset, exactly);
      var count := DecInt(4, data, offset);
      ItemsAreRewritten(element, count.value, data, count.next);
      var r := DecItems(element, count.value, data, count.next);
      RewritesInTwo(data, offset, count.next, r.next, BigEndian(count.value, 4), EncItems(element, r.value), exactly);
    case Record(fields) => FieldsAreRewritten(fields, data, offset);
    case Enum(cases) =>
      IntIsRewritten(4, data, offset, exactly);
      var tag := DecInt(4, data, offset);
      var it := cases[tag.value - 1].shape;
      OneOfTheFields(cases, tag.value - 1);
      ReadIsRewritten(it, data, tag.next);
      var r := Dec(it, data, tag.next);
      RewritesLoosely(data, tag.next, r.next, Enc(it, r.value), HoldsNoBool(it), exactly);
      RewritesInTwo(data, offset, tag.next, r.next, BigEndian(tag.value, 4), Enc(it, r.value), exactly);
  }

  lemma RewritesLoosely(data: seq<Byte>, offset: nat, next: nat, bytes: seq<Byte>, strictly: bool, exactly: bool)
    requires Rewrites(data, offset, next, bytes, strictly) && (exactly ==> strictly)
    ensures Rewrites(data, offset, next, bytes, exactly)
  {
  }

  lemma BoolIsRewritten(data: seq<Byte>, offset: nat)
    requires Dec(Bool, data, offset).Done?
    ensures var r := Dec(Bool, data, offset); Fits(Bool, r.value) && Rewrites(data, offset, r.next, Enc(Bool, r.value), false)
  {
    ByteIsRewritten(data, offset, false);
  }

  lemma TextIsRewritten(data: seq<Byte>, offset: nat)
    requires Dec(Text, data, offset).Done?
    ensures var r := Dec(Text, data, offset); Fits(Text, r.value) && Rewrites(data, offset, r.next, Enc(Text, r.value), true)
  {
    hide BigEndian, FromBigEndian, DecInt, Pow256;
    IntIsRewritten(4, data, offset, true);
    var count := DecInt(4, data, offset);
    var bytes := DecBytes(count.value, data, count.next);
    RewritesInTwo(data, offset, count.next, bytes.next, BigEndian(count.value, 4), bytes.value, true);
  }

  lemma {:induction false} ItemsAreRewritten(shape: Shape, count: nat, data: seq<Byte>, offset: nat)
    requires DecItems(shape, count, data, offset).Done? && offset <= |data| && NamesEachOnce(shape)
    ensures var r := DecItems(shape, count, data, offset);
      |r.value| == count && AllFit(shape, r.value)
      && Rewrites(data, offset, r.next, EncItems(shape, r.value), HoldsNoBool(shape))
    decreases shape, count + 1
  {
    hide Dec, Fits, Enc, HoldsNoBool, NamesEachOnce;
    if count > 0 {
      var first := Dec(shape, data, offset);
      ReadIsRewritten(shape, data, offset);
      ItemsAreRewritten(shape, count - 1, data, first.next);
      var others := DecItems(shape, count - 1, data, first.next);
      var vs := [first.value] + others.value;
      assert vs[1..] == others.value;
      RewritesInTwo(data, offset, first.next, others.next, Enc(shape, first.value), EncItems(shape, others.value),
                    HoldsNoBool(shape));
    }
  }

  lemma {:induction false} FieldsAreRewritten(fields: seq<Field>, data: seq<Byte>, offset: nat)
    requires DecFields(fields, data, offset).Done? && offset <= |data| && NameEachOnce(fields)
    ensures var r := DecFields(fields, data, offset);
      r.value.Keys == Names(fields) && FieldsFit(fields, r.value)
      && Rewrites(data, offset, r.next, EncFields(fields, r.value), HoldNoBool(fields))
    decreases fields, 0
  {
    hide Dec, Fits, Enc, HoldsNoBool, NamesEachOnce, Names, Rewrites;
    if fields != [] {
      var field, exactly := fields[0], HoldNoBool(fields);
      var first := Dec(field.shape, data, offset);
      ReadIsRewritten(field.shape, data, offset);
      RewritesWithin(data, offset, first.next, Enc(field.shape, first.value), HoldsNoBool(field.shape));
      FieldsAreRewritten(fields[1..], data, first.next);
      var others := DecFields(fields[1..], data, first.next);
      var m := others.value[field.name := first.value];
      FirstName(fields);
      assert map[field.name := first.value] + others.value == m;
      OtherFieldsOnly(fields[1..], others.value, field.name, first.value);
      RewritesLoosely(data, offset, first.next, Enc(field.shape, first.value), HoldsNoBool(field.shape), exactly);
      RewritesLoosely(data, first.next, others.next, EncFields(fields[1..], others.value), HoldNoBool(fields[1..]), exactly);
      RewritesInTwo(data, offset, first.next, others.next, Enc(field.shape, first.value), EncFields(fields[1..], m), exactly);
    } else {
      NothingRewritten(data, offset, HoldNoBool(fields));
      assert Names([]) == {} by { NoNames(); }
    }
  }

  lemma NoNames()
    ensures Names([]) == {}
  {
  }

  lemma RewritesWithin(data: seq<Byte>, offset: nat, next: nat, bytes: seq<Byte>, exactly: bool)
    requires Rewrites(data, offset, next, bytes, exactly)
    ensures next <= |data|
  {
  }

  lemma NothingRewritten(data: seq<Byte>, offset: nat, exactly: bool)
    requires offset <= |data|
    ensures Rewrites(data, offset, offset, [], exactly)
  {
  }

  /** A field of another name is neither here nor there. */
  lemma {:induction false} OtherFieldsOnly(fields: seq<Field>, m: map<string, Val>, name: string, v: Val)
    requires FieldsFit(fields, m) && name !in Names(fields)
    ensures FieldsFit(fields, m[name := v]) && EncFields(fields, m[name := v]) == EncFields(fields, m)
    decreases fields
  {
    hide Fits, Enc;
    if fields != [] {
      FirstName(fields);
      assert fields[0].name != name;
      OtherFieldsOnly(fields[1..], m, name, v);
    }
  }
}
