/** The binary format between the Swift client and its Rust core: integers in big-endian order, counts
    before what is counted, tags before what is tagged
    (clients/apple/PessimalFFI/Sources/PessimalFFI.swift). */
module Wire {

  type Byte = n: nat | n < 256

  // ----- integers

  function Pow256(width: nat): (p: nat)
    ensures p > 0
  {
    if width == 0 then 1 else 256 * Pow256(width - 1)
  }

  function BigEndian(n: nat, width: nat): (bytes: seq<Byte>)
    ensures |bytes| == width
  {
    if width == 0 then [] else BigEndian(n / 256, width - 1) + [n % 256]
  }

  function FromBigEndian(bytes: seq<Byte>): (n: nat)
    ensures n < Pow256(|bytes|)
  {
    if bytes == [] then 0 else 256 * FromBigEndian(bytes[..|bytes| - 1]) + bytes[|bytes| - 1]
  }

  const TWO_63: int := 0x8000_0000_0000_0000
  const TWO_64: int := 0x1_0000_0000_0000_0000

  /** The bit pattern of an `Int64`. */
  function Pattern(n: int): (u: nat)
    requires -TWO_63 <= n < TWO_63
    ensures u < TWO_64
  {
    if n < 0 then n + TWO_64 else n
  }

  /** The `Int64` of a bit pattern. */
  function Signed(u: nat): int {
    if u < TWO_63 then u else u - TWO_64
  }

  // ----- shapes and values

  /** What a converter carries. A double is its 64-bit pattern and a string its UTF-8 bytes. A record is its
      fields in the order they go over the wire; an enum is its cases in the order of their tags, each with
      the record it carries. */
  datatype Shape =
    | U32 | I64 | F64 | Bool | Text
    | Optional(element: Shape)
    | Sequence(element: Shape)
    | Record(fields: seq<Field>)
    | Enum(cases: seq<Field>)

  datatype Field = Field(name: string, shape: Shape)

  datatype Val =
    | Number(n: int)
    | Truth(b: bool)
    | Bytes(bytes: seq<Byte>)
    | Absent
    | Present(it: Val)
    | Items(vs: seq<Val>)
    | Fields(m: map<string, Val>)
    | Case(name: string, it: Val)

  /** A count that `Int32` holds. */
  predicate IsCount(n: nat) {
    n < 0x8000_0000
  }

  function Names(fields: seq<Field>): set<string> {
    set f | f in fields :: f.name
  }

  /** The position of a name, or the number of fields. */
  function IndexOf(fields: seq<Field>, name: string): (i: nat)
    ensures i <= |fields|
    ensures i < |fields| ==> fields[i].name == name
  {
    if fields == [] || fields[0].name == name then 0 else 1 + IndexOf(fields[1..], name)
  }

  /** The value is one of the shape's, with every count below 2^31. */
  predicate Fits(shape: Shape, v: Val)
    decreases shape, 0
  {
    match shape
    case U32 => v.Number? && 0 <= v.n < 0x1_0000_0000
    case I64 => v.Number? && -TWO_63 <= v.n < TWO_63
    case F64 => v.Number? && 0 <= v.n < TWO_64
    case Bool => v.Truth?
    case Text => v.Bytes? && IsCount(|v.bytes|)
    case Optional(element) => v.Absent? || (v.Present? && Fits(element, v.it))
    case Sequence(element) => v.Items? && IsCount(|v.vs|) && AllFit(element, v.vs)
    case Record(fields) => v.Fields? && v.m.Keys == Names(fields) && FieldsFit(fields, v.m)
    case Enum(cases) =>
      v.Case? && var i := IndexOf(cases, v.name); i < |cases| && IsCount(i + 1) && Fits(cases[i].shape, v.it)
  }

  predicate AllFit(shape: Shape, vs: seq<Val>)
    decreases shape, |vs| + 1
  {
    vs == [] || (Fits(shape, vs[0]) && AllFit(shape, vs[1..]))
  }

  predicate FieldsFit(fields: seq<Field>, m: map<string, Val>)
    decreases fields, 0
  {
    fields == []
    || (fields[0].name in m && Fits(fields[0].shape, m[fields[0].name]) && FieldsFit(fields[1..], m))
  }

  // ----- writing

  /** `write` */
  function Enc(shape: Shape, v: Val): seq<Byte>
    requires Fits(shape, v)
    decreases shape, 0
  {
    match shape
    case U32 => BigEndian(v.n, 4)
    case I64 => BigEndian(Pattern(v.n), 8)
    case F64 => BigEndian(v.n, 8)
    case Bool => [if v.b then 1 else 0]
    case Text => BigEndian(|v.bytes|, 4) + v.bytes
    case Optional(element) => if v.Absent? then [0] else [1] + Enc(element, v.it)
    case Sequence(element) => BigEndian(|v.vs|, 4) + EncItems(element, v.vs)
    case Record(fields) => EncFields(fields, v.m)
    case Enum(cases) =>
      var i := IndexOf(cases, v.name);
      BigEndian(i + 1, 4) + Enc(cases[i].shape, v.it)
  }

  function EncItems(shape: Shape, vs: seq<Val>): seq<Byte>
    requires AllFit(shape, vs)
    decreases shape, |vs| + 1
  {
    if vs == [] then [] else Enc(shape, vs[0]) + EncItems(shape, vs[1..])
  }

  function EncFields(fields: seq<Field>, m: map<string, Val>): seq<Byte>
    requires FieldsFit(fields, m)
    decreases fields, 0
  {
    if fields == [] then [] else Enc(fields[0].shape, m[fields[0].name]) + EncFields(fields[1..], m)
  }

  // ----- reading

  datatype WireError = BufferOverflow | UnexpectedOptionalTag | UnexpectedEnumCase | IncompleteData

  /** What reading at an offset does: a value and the offset after it, an error thrown, or -- for a negative
      count, which makes an upside-down range -- a trap. */
  datatype Outcome<+T> = Done(value: T, next: nat) | Thrown(error: WireError) | Trapped {
    predicate IsFailure() {
      !Done?
    }

    function PropagateFailure<U>(): Outcome<U>
      requires IsFailure()
    {
      if Thrown? then Thrown(error) else Trapped
    }

    function Extract(): (T, nat)
      requires !IsFailure()
    {
      (value, next)
    }
  }

  /** `readInt`, before the sign is looked at. */
  function DecInt(width: nat, data: seq<Byte>, offset: nat): Outcome<nat> {
    if offset + width > |data| then Thrown(BufferOverflow)
    else Done(FromBigEndian(data[offset..offset + width]), offset + width)
  }

  /** `readBytes` with a count read as `Int32`. */
  function DecBytes(count: nat, data: seq<Byte>, offset: nat): Outcome<seq<Byte>> {
    if !IsCount(count) then Trapped
    else if offset + count > |data| then Thrown(BufferOverflow)
    else Done(data[offset..offset + count], offset + count)
  }

  /** `read` */
  function Dec(shape: Shape, data: seq<Byte>, offset: nat): Outcome<Val>
    decreases shape, 0
  {
    match shape
    case U32 =>
      var (n, next) :- DecInt(4, data, offset);
      Done(Number(n), next)
    case I64 =>
      var (n, next) :- DecInt(8, data, offset);
      Done(Number(Signed(n)), next)
    case F64 =>
      var (n, next) :- DecInt(8, data, offset);
      Done(Number(n), next)
    case Bool =>
      var (n, next) :- DecInt(1, data, offset);
      Done(Truth(n != 0), next)
    case Text =>
      var (count, next) :- DecInt(4, data, offset);
      var (bytes, end) :- DecBytes(count, data, next);
      Done(Bytes(bytes), end)
    case Optional(element) =>
      var (tag, next) :- DecInt(1, data, offset);
      if tag == 0 then Done(Absent, next)
      else if tag != 1 then Thrown(UnexpectedOptionalTag)
      else
        var (v, end) :- Dec(element, data, next);
        Done(Present(v), end)
    case Sequence(element) =>
      var (count, next) :- DecInt(4, data, offset);
      if !IsCount(count) then Trapped
      else
        var (vs, end) :- DecItems(element, count, data, next);
        Done(Items(vs), end)
    case Record(fields) =>
      var (m, end) :- DecFields(fields, data, offset);
      Done(Fields(m), end)
    case Enum(cases) =>
      var (tag, next) :- DecInt(4, data, offset);
      if !(1 <= tag <= |cases| && IsCount(tag)) then Thrown(UnexpectedEnumCase)
      else
        var (v, end) :- Dec(cases[tag - 1].shape, data, next);
        Done(Case(cases[tag - 1].name, v), end)
  }

  function DecItems(shape: Shape, count: nat, data: seq<Byte>, offset: nat): Outcome<seq<Val>>
    decreases shape, count + 1
  {
    if count == 0 then Done([], offset)
    else
      var (first, next) :- Dec(shape, data, offset);
      var (others, end) :- DecItems(shape, count - 1, data, next);
      Done([first] + others, end)
  }

  function DecFields(fields: seq<Field>, data: seq<Byte>, offset: nat): Outcome<map<string, Val>>
    decreases fields, 0
  {
    if fields == [] then Done(map[], offset)
    else
      var (first, next) :- Dec(fields[0].shape, data, offset);
      var (others, end) :- DecFields(fields[1..], data, next);
      Done(map[fields[0].name := first] + others, end)
  }

  /** `lift`: the whole buffer is one value, with nothing left over. */
  function Lift(shape: Shape, data: seq<Byte>): Outcome<Val> {
    var (v, end) :- Dec(shape, data, 0);
    if end < |data| then Thrown(IncompleteData) else Done(v, end)
  }
}
