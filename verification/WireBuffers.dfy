/** The writer that appends and the reader whose offset moves
    (clients/apple/PessimalFFI/Sources/PessimalFFI.swift). */
module WireBuffers {
  import opened Wire

  // ----- writing

  lemma Regroup(a: seq<Byte>, b: seq<Byte>, c: seq<Byte>)
    ensures (a + b) + c == a + (b + c)
  {
  }

  class Writer {
    var bytes: seq<Byte>

    constructor ()
      ensures bytes == []
    {
      bytes := [];
    }

    /** `writeInt`, of a bit pattern. */
    method WriteInt(n: nat, width: nat)
      modifies this
      ensures bytes == old(bytes) + BigEndian(n, width)
    {
      bytes := bytes + BigEndian(n, width);
    }

    method WriteBytes(more: seq<Byte>)
      modifies this
      ensures bytes == old(bytes) + more
    {
      bytes := bytes + more;
    }

    /** `write` of each converter. */
    method Write(shape: Shape, v: Val)
      requires Fits(shape, v)
      modifies this
      ensures bytes == old(bytes) + Enc(shape, v)
      decreases shape, 0
    {
      hide BigEndian, EncItems, EncFields, AllFit, FieldsFit, Names, IndexOf, Pattern;
      match shape
      case U32 => WriteInt(v.n, 4);
      case I64 => WriteInt(Pattern(v.n), 8);
      case F64 => WriteInt(v.n, 8);
      case Bool => WriteByte(if v.b then 1 else 0);
      case Text =>
        Regroup(bytes, BigEndian(|v.bytes|, 4), v.bytes);
        WriteInt(|v.bytes|, 4);
        WriteBytes(v.bytes);
      case Optional(element) =>
        if v.Absent? {
          WriteByte(0);
        } else {
          Regroup(bytes, [1], Enc(element, v.it));
          WriteByte(1);
          Write(element, v.it);
        }
      case Sequence(element) =>
        Regroup(bytes, BigEndian(|v.vs|, 4), EncItems(element, v.vs));
        WriteInt(|v.vs|, 4);
        WriteItems(element, v.vs);
      case Record(fields) => WriteFields(fields, v.m);
      case Enum(cases) =>
        var i := IndexOf(cases, v.name);
        Regroup(bytes, BigEndian(i + 1, 4), Enc(cases[i].shape, v.it));
        WriteInt(i + 1, 4);
        Write(cases[i].shape, v.it);
    }

    method WriteByte(b: Byte)
      modifies this
      ensures bytes == old(bytes) + [b]
    {
      assert BigEndian(b, 0) == [] && BigEndian(b, 1) == [b];
      WriteInt(b, 1);
    }

    /** The items of a sequence, one after the other. */
    method WriteItems(shape: Shape, vs: seq<Val>)
      requires AllFit(shape, vs)
      modifies this
      ensures bytes == old(bytes) + EncItems(shape, vs)
      decreases shape, 1
    {
      hide Enc, Fits;
      assert vs[0..] == vs;
      var i := 0;
      while i < |vs|
        invariant 0 <= i <= |vs| && AllFit(shape, vs[i..])
        invariant bytes + EncItems(shape, vs[i..]) == old(bytes) + EncItems(shape, vs)
      {
        assert vs[i..][1..] == vs[i + 1..];
        Write(shape, vs[i]);
        i := i + 1;
      }
    }

    /** The fields of a record, in order. */
    method WriteFields(fields: seq<Field>, m: map<string, Val>)
      requires FieldsFit(fields, m)
      modifies this
      ensures bytes == old(bytes) + EncFields(fields, m)
      decreases fields, 0
    {
      hide Enc, Fits;
      assert fields[0..] == fields;
      var i := 0;
      while i < |fields|
        invariant 0 <= i <= |fields| && FieldsFit(fields[i..], m)
        invariant bytes + EncFields(fields[i..], m) == old(bytes) + EncFields(fields, m)
      {
        assert fields[i..][1..] == fields[i + 1..];
        Write(fields[i].shape, m[fields[i].name]);
        i := i + 1;
      }
    }
  }

  /** `lower` */
  method Lower(shape: Shape, v: Val) returns (bytes: seq<Byte>)
    requires Fits(shape, v)
    ensures bytes == Enc(shape, v)
  {
    var writer := new Writer();
    writer.Write(shape, v);
    bytes := writer.bytes;
  }

  // ----- reading

  /** Values already read, before what is still to be read. */
  function Before(vs: seq<Val>, r: Outcome<seq<Val>>): Outcome<seq<Val>> {
    if r.Done? then Done(vs + r.value, r.next) else r
  }

  lemma OneMoreItem(vs: seq<Val>, shape: Shape, count: nat, data: seq<Byte>, offset: nat)
    requires count > 0
    ensures var first := Dec(shape, data, offset);
      Before(vs, DecItems(shape, count, data, offset)) ==
        if first.Done? then Before(vs + [first.value], DecItems(shape, count - 1, data, first.next))
        else first.PropagateFailure()
  {
    hide Dec;
    var first := Dec(shape, data, offset);
    if first.Done? {
      var others := DecItems(shape, count - 1, data, first.next);
      if others.Done? {
        assert vs + ([first.value] + others.value) == (vs + [first.value]) + others.value;
      }
    }
  }

  /** Fields already read, beside what is still to be read. */
  function Beside(m: map<string, Val>, r: Outcome<map<string, Val>>): Outcome<map<string, Val>> {
    if r.Done? then Done(m + r.value, r.next) else r
  }

  lemma OneMoreField(m: map<string, Val>, fields: seq<Field>, i: nat, data: seq<Byte>, offset: nat)
    requires i < |fields|
    ensures var first := Dec(fields[i].shape, data, offset);
      Beside(m, DecFields(fields[i..], data, offset)) ==
        if first.Done? then Beside(m[fields[i].name := first.value], DecFields(fields[i + 1..], data, first.next))
        else first.PropagateFailure()
  {
    hide Dec;
    assert fields[i..][1..] == fields[i + 1..];
    var name, first := fields[i].name, Dec(fields[i].shape, data, offset);
    if first.Done? {
      var others := DecFields(fields[i + 1..], data, first.next);
      if others.Done? {
        assert m + (map[name := first.value] + others.value) == m[name := first.value] + others.value;
      }
    }
  }

  lemma NoneLeft(vs: seq<Val>, shape: Shape, data: seq<Byte>, offset: nat)
    ensures Before(vs, DecItems(shape, 0, data, offset)) == Done(vs, offset)
  {
    assert vs + [] == vs;
  }

  lemma NoneBefore(r: Outcome<seq<Val>>)
    ensures Before([], r) == r
  {
    if r.Done? {
      assert [] + r.value == r.value;
    }
  }

  class Reader {
    const data: seq<Byte>
    var offset: nat

    constructor (bytes: seq<Byte>)
      ensures data == bytes && offset == 0
    {
      data := bytes;
      offset := 0;
    }

    /** `readInt`: the offset advances on success only. */
    method ReadInt(width: nat) returns (r: Outcome<nat>)
      modifies this
      ensures r == DecInt(width, data, old(offset))
      ensures offset == if r.Done? then r.next else old(offset)
    {
      if |data| < offset + width { return Thrown(BufferOverflow); }
      r := Done(FromBigEndian(data[offset..offset + width]), offset + width);
      offset := offset + width;
    }

    /** `readBytes` */
    method ReadBytes(count: nat) returns (r: Outcome<seq<Byte>>)
      modifies this
      ensures r == DecBytes(count, data, old(offset))
      ensures offset == if r.Done? then r.next else old(offset)
    {
      if !IsCount(count) { return Trapped; }
      if |data| < offset + count { return Thrown(BufferOverflow); }
      r := Done(data[offset..offset + count], offset + count);
      offset := offset + count;
    }

    /** `read` of each converter; after a failure nobody looks at the reader again. */
    method Read(shape: Shape) returns (r: Outcome<Val>)
      modifies this
      ensures r == Dec(shape, data, old(offset))
      ensures r.Done? ==> offset == r.next
      decreases shape, 0
    {
      hide FromBigEndian, DecInt, DecBytes, DecItems, DecFields;
      match shape
      case U32 =>
        var n := ReadInt(4);
        if n.IsFailure() { return n.PropagateFailure(); }
        r := Done(Number(n.value), offset);
      case I64 =>
        var n := ReadInt(8);
        if n.IsFailure() { return n.PropagateFailure(); }
        r := Done(Number(Signed(n.value)), offset);
      case F64 =>
        var n := ReadInt(8);
        if n.IsFailure() { return n.PropagateFailure(); }
        r := Done(Number(n.value), offset);
      case Bool =>
        var n := ReadInt(1);
        if n.IsFailure() { return n.PropagateFailure(); }
        r := Done(Truth(n.value != 0), offset);
      case Text =>
        var count := ReadInt(4);
        if count.IsFailure() { return count.PropagateFailure(); }
        var bytes := ReadBytes(count.value);
        if bytes.IsFailure() { return bytes.PropagateFailure(); }
        r := Done(Bytes(bytes.value), offset);
      case Optional(element) =>
        var tag := ReadInt(1);
        if tag.IsFailure() { return tag.PropagateFailure(); }
        if tag.value == 0 { return Done(Absent, offset); }
        if tag.value != 1 { return Thrown(UnexpectedOptionalTag); }
        var it := Read(element);
        if it.IsFailure() { return it; }
        r := Done(Present(it.value), offset);
      case Sequence(element) =>
        var count := ReadInt(4);
        if count.IsFailure() { return count.PropagateFailure(); }
        if !IsCount(count.value) { return Trapped; }
        var items := ReadItems(element, count.value);
        if items.IsFailure() { return items.PropagateFailure(); }
        r := Done(Items(items.value), offset);
      case Record(fields) =>
        var values := ReadFields(fields);
        if values.IsFailure() { return values.PropagateFailure(); }
        r := Done(Fields(values.value), offset);
      case Enum(cases) =>
        var tag := ReadInt(4);
        if tag.IsFailure() { return tag.PropagateFailure(); }
        if !(1 <= tag.value <= |cases| && IsCount(tag.value)) { return Thrown(UnexpectedEnumCase); }
        var it := Read(cases[tag.value - 1].shape);
        if it.IsFailure() { return it; }
        r := Done(Case(cases[tag.value - 1].name, it.value), offset);
    }

    /** As many items as were counted; the first that fails ends it. */
    method ReadItems(shape: Shape, count: nat) returns (r: Outcome<seq<Val>>)
      modifies this
      ensures r == DecItems(shape, count, data, old(offset))
      ensures r.Done? ==> offset == r.next
      decreases shape, 1
    {
      hide Dec, DecItems, Before;
      var vs: seq<Val> := [];
      ghost var start := DecItems(shape, count, data, offset);
      NoneBefore(start);
      var i := 0;
      while i < count
        invariant 0 <= i <= count
        invariant start == Before(vs, DecItems(shape, count - i, data, offset))
      {
        OneMoreItem(vs, shape, count - i, data, offset);
        var first := Read(shape);
        if first.IsFailure() { return first.PropagateFailure(); }
        vs := vs + [first.value];
        i := i + 1;
      }
      NoneLeft(vs, shape, data, offset);
      r := Done(vs, offset);
    }

    /** The fields of a record, in order. */
    method ReadFields(fields: seq<Field>) returns (r: Outcome<map<string, Val>>)
      modifies this
      ensures r == DecFields(fields, data, old(offset))
      ensures r.Done? ==> offset == r.next
      decreases fields, 0
    {
      hide Dec;
      var m: map<string, Val> := map[];
      ghost var start := DecFields(fields, data, offset);
      assert start.Done? ==> m + start.value == start.value;
      assert fields[0..] == fields;
      var i := 0;
      while i < |fields|
        invariant 0 <= i <= |fields|
        invariant start == Beside(m, DecFields(fields[i..], data, offset))
      {
        OneMoreField(m, fields, i, data, offset);
        var first := Read(fields[i].shape);
        if first.IsFailure() { return first.PropagateFailure(); }
        m := m[fields[i].name := first.value];
        i := i + 1;
      }
      assert fields[i..] == [];
      assert m + map[] == m;
      r := Done(m, offset);
    }
  }

  /** `lift` */
  method LiftBuffer(shape: Shape, bytes: seq<Byte>) returns (r: Outcome<Val>)
    ensures r == Lift(shape, bytes)
  {
    hide Dec;
    var reader := new Reader(bytes);
    r := reader.Read(shape);
    if r.IsFailure() { return; }
    if reader.offset < |bytes| { return Thrown(IncompleteData); }
  }
}
