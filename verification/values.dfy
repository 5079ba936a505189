/** Tagged values, the classes of complex objects, and the bytes a fresh serialisation gives them. */
module Values {
  import opened Bytes
  import opened Hashing
  import opened DecimalCodec
  import opened Decimals

  // ---- type codes

  const TC_BYTE: byte := 0x01
  const TC_SHORT: byte := 0x02
  const TC_INT: byte := 0x03
  const TC_LONG: byte := 0x04
  const TC_FLOAT: byte := 0x05
  const TC_DOUBLE: byte := 0x06
  const TC_CHAR: byte := 0x07
  const TC_BOOL: byte := 0x08
  const TC_STRING: byte := 0x09
  const TC_UUID: byte := 0x0a
  const TC_DATE: byte := 0x0b
  const TC_BYTE_ARRAY: byte := 0x0c
  const TC_SHORT_ARRAY: byte := 0x0d
  const TC_INT_ARRAY: byte := 0x0e
  const TC_LONG_ARRAY: byte := 0x0f
  const TC_FLOAT_ARRAY: byte := 0x10
  const TC_DOUBLE_ARRAY: byte := 0x11
  const TC_CHAR_ARRAY: byte := 0x12
  const TC_BOOL_ARRAY: byte := 0x13
  const TC_STRING_ARRAY: byte := 0x14
  const TC_UUID_ARRAY: byte := 0x15
  const TC_DATE_ARRAY: byte := 0x16
  const TC_OBJECT_ARRAY: byte := 0x17
  const TC_COLLECTION: byte := 0x18
  const TC_MAP: byte := 0x19
  const TC_WRAPPED: byte := 0x1b
  const TC_ENUM: byte := 0x1c
  const TC_ENUM_ARRAY: byte := 0x1d
  const TC_DECIMAL: byte := 0x1e
  const TC_DECIMAL_ARRAY: byte := 0x1f
  const TC_TIMESTAMP: byte := 0x21
  const TC_TIMESTAMP_ARRAY: byte := 0x22
  const TC_TIME: byte := 0x24
  const TC_TIME_ARRAY: byte := 0x25
  const TC_BINARY_ENUM: byte := 0x26
  const TC_NULL: byte := 0x65
  const TC_COMPLEX_OBJECT: byte := 0x67

  /** How one fixed-width element is stored and shown: a signed integer, an opaque bit pattern
      (floating point), a raw byte, a UTF-16 code unit, or a truth value. */
  datatype Style = Signed | Pattern | RawByte | CodeUnit | Flag
  datatype Elem = Elem(width: nat, style: Style)

  /** A parser class: the one of a type code, or the one that looks the type code up first. */
  datatype Class = Any | Typed(code: byte)

  /** The layout of a container's header: count, type identifier and count, or count and hint. */
  datatype HeaderStyle = CountOnly | TypeIdCount | CountHint

  datatype Kind =
    | NullKind
    | PrimKind(elem: Elem)
    | PairKind(width1: nat, width2: nat)
    | UuidKind
    | StringKind
    | DecimalKind
    | PrimArrayKind(elem: Elem)
    | WrappedKind
    | ContainerKind(header: HeaderStyle, element: Class, perEntry: nat)
    | ObjectKind
    | UnknownKind

  /** The table of `tc_map`: which class a type code stands for. */
  function KindOf(code: byte): (k: Kind)
    ensures k.ContainerKind? ==> k.perEntry == 1 || k.perEntry == 2
  {
    if code == TC_NULL then NullKind
    else if code == TC_BYTE then PrimKind(Elem(1, Signed))
    else if code == TC_SHORT then PrimKind(Elem(2, Signed))
    else if code == TC_INT then PrimKind(Elem(4, Signed))
    else if code == TC_LONG || code == TC_DATE || code == TC_TIME then PrimKind(Elem(8, Signed))
    else if code == TC_FLOAT then PrimKind(Elem(4, Pattern))
    else if code == TC_DOUBLE then PrimKind(Elem(8, Pattern))
    else if code == TC_CHAR then PrimKind(Elem(2, CodeUnit))
    else if code == TC_BOOL then PrimKind(Elem(1, Flag))
    else if code == TC_TIMESTAMP then PairKind(8, 4)
    else if code == TC_ENUM || code == TC_BINARY_ENUM then PairKind(4, 4)
    else if code == TC_UUID then UuidKind
    else if code == TC_STRING then StringKind
    else if code == TC_DECIMAL then DecimalKind
    else if code == TC_BYTE_ARRAY then PrimArrayKind(Elem(1, RawByte))
    else if code == TC_SHORT_ARRAY then PrimArrayKind(Elem(2, Signed))
    else if code == TC_INT_ARRAY then PrimArrayKind(Elem(4, Signed))
    else if code == TC_LONG_ARRAY then PrimArrayKind(Elem(8, Signed))
    else if code == TC_FLOAT_ARRAY then PrimArrayKind(Elem(4, Pattern))
    else if code == TC_DOUBLE_ARRAY then PrimArrayKind(Elem(8, Pattern))
    else if code == TC_CHAR_ARRAY then PrimArrayKind(Elem(2, CodeUnit))
    else if code == TC_BOOL_ARRAY then PrimArrayKind(Elem(1, Flag))
    else if code == TC_WRAPPED then WrappedKind
    else if code == TC_STRING_ARRAY then ContainerKind(CountOnly, Typed(TC_STRING), 1)
    else if code == TC_UUID_ARRAY then ContainerKind(CountOnly, Typed(TC_UUID), 1)
    else if code == TC_DATE_ARRAY then ContainerKind(CountOnly, Typed(TC_DATE), 1)
    else if code == TC_DECIMAL_ARRAY then ContainerKind(CountOnly, Typed(TC_DECIMAL), 1)
    else if code == TC_TIMESTAMP_ARRAY then ContainerKind(CountOnly, Typed(TC_TIMESTAMP), 1)
    else if code == TC_TIME_ARRAY then ContainerKind(CountOnly, Typed(TC_TIME), 1)
    else if code == TC_ENUM_ARRAY then ContainerKind(TypeIdCount, Typed(TC_ENUM), 1)
    else if code == TC_OBJECT_ARRAY then ContainerKind(TypeIdCount, Any, 1)
    else if code == TC_COLLECTION then ContainerKind(CountHint, Any, 1)
    else if code == TC_MAP then ContainerKind(CountHint, Any, 2)
    else if code == TC_COMPLEX_OBJECT then ObjectKind
    else UnknownKind
  }

  /** The codes that values of a single class carry. */
  lemma KindsOfCodes()
    ensures KindOf(TC_NULL) == NullKind && KindOf(TC_UUID) == UuidKind && KindOf(TC_STRING) == StringKind
    ensures KindOf(TC_DECIMAL) == DecimalKind && KindOf(TC_WRAPPED) == WrappedKind
    ensures KindOf(TC_COMPLEX_OBJECT) == ObjectKind && KindOf(TC_BYTE_ARRAY).PrimArrayKind?
  {}

  lemma KindShapes(code: byte)
    ensures var k := KindOf(code);
      (k.PrimKind? || k.PrimArrayKind? ==>
         k.elem.width > 0 && (k.elem.style == RawByte ==> k.elem.width == 1)
         && (k.elem.style == CodeUnit ==> k.elem.width == 2))
      && (k.ContainerKind? && k.element.Typed? ==> KindOf(k.element.code) != UnknownKind)
      && (k.PairKind? ==> k.width1 > 0 && k.width2 > 0)
  {}

  // ---- values

  /** A field of a complex class: its lower-cased name as code points, and the type code of its class. */
  datatype Field = Field(name: seq<int>, code: byte)

  datatype ClassInfo = ClassInfo(typeId: int, schema: seq<Field>) {
    function FieldIds(): (ids: seq<int>)
      ensures |ids| == |schema|
    {
      seq(|schema|, i requires 0 <= i < |schema| => StringHash(schema[i].name))
    }

    function SchemaIdentifier(): int {
      SchemaId(FieldIds())
    }
  }

  datatype Value =
    | Null
    | Prim(code: byte, x: int)                            // one fixed-width element
    | Pair(code: byte, a: int, b: int)                    // timestamp, enum
    | Uuid(octets: bytes)
    | Str(utf8: bytes)
    | Dec(number: Decimal)
    | PrimArray(code: byte, xs: seq<int>)
    | Wrapped(payload: bytes, offset: int)                // read only
    | Container(code: byte, meta: int, elems: seq<Value>) // a map lists key, value, key, value
    | Obj(cls: ClassInfo, version: int, fields: seq<Value>)

  function CodeOf(v: Value): byte {
    match v
    case Null => TC_NULL
    case Prim(code, _) => code
    case Pair(code, _, _) => code
    case Uuid(_) => TC_UUID
    case Str(_) => TC_STRING
    case Dec(_) => TC_DECIMAL
    case PrimArray(code, _) => code
    case Wrapped(_, _) => TC_WRAPPED
    case Container(code, _, _) => code
    case Obj(_, _, _) => TC_COMPLEX_OBJECT
  }

  /** A value a field or element of the class may hold: null, or a value of the class's own type. */
  predicate Accepts(cls: Class, v: Value) {
    cls.Any? || v.Null? || CodeOf(v) == cls.code
  }

  /** An element that the writer's conversion accepts. Complex-object-style fields (`ctypes`)
      wrap silently, so only arrays bound their signed elements. */
  predicate ElemWritable(e: Elem, x: int, inArray: bool) {
    match e.style
    case Signed => inArray ==> FitsSigned(x, e.width)
    case Pattern => 0 <= x < Pow256(e.width)
    case RawByte => -128 <= x < 256
    case CodeUnit => 0 <= x < 0x1_0000
    case Flag => 0 <= x <= 1
  }

  /** The values the format can carry: shapes agree with the type codes, and lengths fit their fields. */
  ghost predicate WellFormed(v: Value)
    decreases v
  {
    match v
    case Null => true
    case Prim(code, x) => KindOf(code).PrimKind? && ElemWritable(KindOf(code).elem, x, false)
    case Pair(code, _, _) => KindOf(code).PairKind?
    case Uuid(octets) => |octets| == 16
    case Str(utf8) => |utf8| < MAX_LENGTH
    case Dec(number) => MagnitudeLength(number.coefficient) < MAX_LENGTH
    case PrimArray(code, xs) =>
      KindOf(code).PrimArrayKind? && |xs| < MAX_LENGTH
      && forall i :: 0 <= i < |xs| ==> ElemWritable(KindOf(code).elem, xs[i], true)
    case Wrapped(payload, offset) => |payload| < MAX_LENGTH && FitsSigned(offset, 4)
    case Container(code, meta, elems) =>
      var k := KindOf(code);
      k.ContainerKind? && |elems| % k.perEntry == 0 && |elems| < MAX_LENGTH
      && MetaFits(k.header, meta)
      && (forall i :: 0 <= i < |elems| ==> Accepts(k.element, elems[i]))
      && forall i :: 0 <= i < |elems| ==> WellFormed(elems[i])
    case Obj(cls, _, fields) =>
      FitsSigned(cls.typeId, 4) && |fields| == |cls.schema|
      && (forall i :: 0 <= i < |fields| ==>
            KindOf(cls.schema[i].code) != UnknownKind && Accepts(Typed(cls.schema[i].code), fields[i]))
      && forall i :: 0 <= i < |fields| ==> WellFormed(fields[i])
  }

  predicate MetaFits(h: HeaderStyle, meta: int) {
    match h
    case CountOnly => meta == 0
    case TypeIdCount => FitsSigned(meta, 4)
    case CountHint => FitsSigned(meta, 1)
  }

  // ---- equality, and what a client writes

  /** The representative of all values that are equal to v in Python, whose decimals ignore trailing zeros and the sign
      of a zero. */
  function Plain(v: Value): Value
    decreases v, 1
  {
    match v
    case Dec(number) => Dec(Number(number))
    case Container(code, meta, elems) => Container(code, meta, PlainEach(elems))
    case Obj(cls, version, fields) => Obj(cls, version, PlainEach(fields))
    case _ => v
  }

  function PlainEach(vs: seq<Value>): (ps: seq<Value>)
    ensures |ps| == |vs| && forall i :: 0 <= i < |vs| ==> ps[i] == Plain(vs[i])
    decreases vs, 0
  {
    if vs == [] then [] else [Plain(vs[0])] + PlainEach(vs[1..])
  }

  predicate EqualValues(a: Value, b: Value) {
    Plain(a) == Plain(b)
  }

  /** The number that `normalize()` gives in the current context. (On a number that overflows it raises; such a number
      is never written.) */
  function Normalised(number: Decimal): Decimal {
    var n := Fix(CONTEXT, number);
    if n.Some? then n.value else number
  }

  /** The value with every decimal normalised, as a client writes it. */
  function Written(v: Value): Value
    decreases v, 1
  {
    match v
    case Dec(number) => Dec(Normalised(number))
    case Container(code, meta, elems) => Container(code, meta, WrittenEach(elems))
    case Obj(cls, version, fields) => Obj(cls, version, WrittenEach(fields))
    case _ => v
  }

  function WrittenEach(vs: seq<Value>): (ws: seq<Value>)
    ensures |ws| == |vs| && forall i :: 0 <= i < |vs| ==> ws[i] == Written(vs[i])
    decreases vs, 0
  {
    if vs == [] then [] else [Written(vs[0])] + WrittenEach(vs[1..])
  }

  lemma WrittenShape(v: Value)
    ensures CodeOf(Written(v)) == CodeOf(v)
    ensures v.Container? ==> Written(v) == Container(v.code, v.meta, WrittenEach(v.elems))
    ensures v.Obj? ==> Written(v) == Obj(v.cls, v.version, WrittenEach(v.fields))
    ensures v.Dec? ==> Written(v) == Dec(Normalised(v.number))
    ensures !v.Container? && !v.Obj? && !v.Dec? ==> Written(v) == v
  {}

  /** A dictionary never holds the same key twice. */
  ghost predicate DistinctKeys(kv: seq<Value>) {
    forall i, j :: 0 <= i < j < |kv| && i % 2 == 0 && j % 2 == 0 ==> kv[i] != kv[j]
  }

  // ---- serialisation

  function Flatten(parts: seq<bytes>): bytes {
    if parts == [] then [] else parts[0] + Flatten(parts[1..])
  }

  /** The position of each part after `start`. */
  function Offsets(parts: seq<bytes>, start: nat): (o: seq<nat>)
    ensures |o| == |parts|
  {
    if parts == [] then [] else [start] + Offsets(parts[1..], start + |parts[0]|)
  }

  function MaxOf(s: seq<nat>): nat {
    if s == [] then 0 else var m := MaxOf(s[1..]); if s[0] > m then s[0] else m
  }

  const UUID_BYTE_ORDER: seq<nat> := [7, 6, 5, 4, 3, 2, 1, 0, 15, 14, 13, 12, 11, 10, 9, 8]

  function PermuteUuid(octets: bytes): (r: bytes)
    requires |octets| == 16
    ensures |r| == 16
  {
    [octets[7], octets[6], octets[5], octets[4], octets[3], octets[2], octets[1], octets[0],
     octets[15], octets[14], octets[13], octets[12], octets[11], octets[10], octets[9], octets[8]]
  }

  function EncodeElems(xs: seq<int>, width: nat): (b: bytes)
    ensures |b| == |xs| * width
  {
    if xs == [] then [] else ToLE(xs[0], width) + EncodeElems(xs[1..], width)
  }

  function HeaderSize(h: HeaderStyle): nat {
    match h
    case CountOnly => 5
    case TypeIdCount => 9
    case CountHint => 6
  }

  function ContainerHeader(code: byte, h: HeaderStyle, meta: int, count: nat): (b: bytes)
    ensures |b| == HeaderSize(h) && b[0] == code
  {
    match h
    case CountOnly => [code] + ToLE(count, 4)
    case TypeIdCount => [code] + ToLE(meta, 4) + ToLE(count, 4)
    case CountHint => [code] + ToLE(count, 4) + ToLE(meta, 1)
  }

  const HEADER_LENGTH: nat := 24
  const USER_TYPE: nat := 0x01
  const HAS_SCHEMA: nat := 0x02
  const OFFSET_ONE_BYTE: nat := 0x08
  const OFFSET_TWO_BYTES: nat := 0x10
  const COMPACT_FOOTER: nat := 0x20

  predicate HasFlag(flags: nat, mask: nat)
    requires mask > 0
  {
    flags / mask % 2 == 1
  }

  /** The narrowest width the writer chooses for a set of offsets. */
  function OffsetFlag(offsets: seq<nat>): nat {
    if MaxOf(offsets) < 255 then OFFSET_ONE_BYTE
    else if MaxOf(offsets) < 65535 then OFFSET_TWO_BYTES
    else 0
  }

  function ObjectFlags(compact: bool, offsets: seq<nat>): nat {
    USER_TYPE + HAS_SCHEMA + (if compact then COMPACT_FOOTER else 0) + OffsetFlag(offsets)
  }

  /** `offset_c_type`: the width of an offset, told from the flags alone. */
  function OffsetWidth(flags: nat): nat {
    if HasFlag(flags, OFFSET_ONE_BYTE) then 1 else if HasFlag(flags, OFFSET_TWO_BYTES) then 2 else 4
  }

  /** `schema_type`: the size of one footer entry, told from the flags alone. */
  function EntrySize(flags: nat): nat {
    OffsetWidth(flags) + if HasFlag(flags, COMPACT_FOOTER) then 0 else 4
  }

  function FooterEntry(flags: nat, fieldId: int, offset: nat): (b: bytes)
    ensures |b| == EntrySize(flags)
  {
    if HasFlag(flags, COMPACT_FOOTER) then ToLE(offset, OffsetWidth(flags))
    else ToLE(fieldId, 4) + ToLE(offset, OffsetWidth(flags))
  }

  function FooterEntries(flags: nat, ids: seq<int>, offsets: seq<nat>): (parts: seq<bytes>)
    requires |ids| == |offsets|
    ensures |parts| == |ids|
  {
    seq(|ids|, i requires 0 <= i < |ids| => FooterEntry(flags, ids[i], offsets[i]))
  }

  function ObjectHeader(cls: ClassInfo, version: int, flags: nat, hash: int, length: nat, schemaOffset: nat): (b: bytes)
    ensures |b| == HEADER_LENGTH && b[0] == TC_COMPLEX_OBJECT
  {
    [TC_COMPLEX_OBJECT] + ToLE(version, 1) + ToLE(flags, 2) + ToLE(cls.typeId, 4) + ToLE(hash, 4)
    + ToLE(length, 4) + ToLE(cls.SchemaIdentifier(), 4) + ToLE(schemaOffset, 4)
  }

  /** Header, fields and footer of a complex object whose fields serialise to `parts`. */
  function ObjectBytes(cls: ClassInfo, version: int, compact: bool, parts: seq<bytes>): bytes
    requires |parts| == |cls.schema|
  {
    var data := Flatten(parts);
    var offsets := Offsets(parts, HEADER_LENGTH);
    var flags := ObjectFlags(compact, offsets);
    var footer := Flatten(FooterEntries(flags, cls.FieldIds(), offsets));
    var end := HEADER_LENGTH + |data|;
    ObjectHeader(cls, version, flags, BytesHash(data), end + |footer|, end) + data + footer
  }

  /** Sign, coefficient and scale as the format carries them. */
  function DecimalBytes(negative: bool, coefficient: nat, scale: int): bytes {
    var data := Magnitude(negative, coefficient);
    [TC_DECIMAL] + ToLE(scale, 4) + ToLE(|data|, 4) + data
  }

  function EncodeFlat(v: Value): (b: bytes)
    requires !v.Container? && !v.Obj?
    ensures b != [] ==> b[0] == CodeOf(v)
  {
    match v
    case Null => [TC_NULL]
    case Prim(code, x) => if KindOf(code).PrimKind? then [code] + ToLE(x, KindOf(code).elem.width) else []
    case Pair(code, a, b) =>
      if KindOf(code).PairKind? then [code] + ToLE(a, KindOf(code).width1) + ToLE(b, KindOf(code).width2) else []
    case Uuid(octets) => if |octets| == 16 then [TC_UUID] + PermuteUuid(octets) else []
    case Str(utf8) => [TC_STRING] + ToLE(|utf8|, 4) + utf8
    case Dec(number) => DecimalBytes(number.negative, number.coefficient, -number.exponent)
    case PrimArray(code, xs) =>
      if KindOf(code).PrimArrayKind? then [code] + ToLE(|xs|, 4) + EncodeElems(xs, KindOf(code).elem.width) else []
    case Wrapped(payload, offset) => [TC_WRAPPED] + ToLE(|payload|, 4) + payload + ToLE(offset, 4)
  }

  /** The bytes of a value under one footer style. They do not depend on where it is written. */
  function Encode(v: Value, compact: bool): bytes
    decreases v, 1
  {
    match v
    case Container(code, meta, elems) =>
      var k := KindOf(code);
      if k.ContainerKind? then
        ContainerHeader(code, k.header, meta, |elems| / k.perEntry) + Flatten(EncodeEach(elems, compact))
      else []
    case Obj(cls, version, fields) =>
      if |fields| == |cls.schema| then ObjectBytes(cls, version, compact, EncodeEach(fields, compact)) else []
    case _ => EncodeFlat(v)
  }

  function EncodeEach(vs: seq<Value>, compact: bool): (parts: seq<bytes>)
    ensures |parts| == |vs|
    ensures forall i :: 0 <= i < |vs| ==> parts[i] == Encode(vs[i], compact)
    decreases vs, 0
  {
    if vs == [] then [] else [Encode(vs[0], compact)] + EncodeEach(vs[1..], compact)
  }

  // ---- what a client writes

  /** The bytes a client writes for a value. */
  function ClientBytes(v: Value, compact: bool): bytes {
    Encode(Written(v), compact)
  }

  function ClientParts(vs: seq<Value>, compact: bool): (parts: seq<bytes>)
    ensures |parts| == |vs|
    ensures forall i :: 0 <= i < |vs| ==> parts[i] == ClientBytes(vs[i], compact)
  {
    EncodeEach(WrittenEach(vs), compact)
  }

  ghost predicate Writable(v: Value) {
    WellFormed(Written(v))
  }

  lemma ObjectIsWritable(v: Value)
    requires v.Obj? && Writable(v)
    ensures |v.fields| == |v.cls.schema| && forall i :: 0 <= i < |v.fields| ==> Writable(v.fields[i])
  {
    WrittenShape(v);
    hide Written, KindOf;
  }

  // ---- general facts

  lemma {:induction false} FlattenSnoc(parts: seq<bytes>, p: bytes)
    ensures Flatten(parts + [p]) == Flatten(parts) + p
  {
    if parts != [] {
      FlattenSnoc(parts[1..], p);
      assert (parts + [p])[1..] == parts[1..] + [p];
    } else {
      assert (parts + [p])[1..] == [];
    }
  }

  lemma {:induction false} FlattenAppend(a: seq<bytes>, b: seq<bytes>)
    ensures Flatten(a + b) == Flatten(a) + Flatten(b)
    decreases |a|
  {
    if a == [] {
      assert [] + b == b && Flatten(a) + Flatten(b) == Flatten(b);
    } else {
      FlattenAppend(a[1..], b);
      assert (a + b)[1..] == a[1..] + b && (a + b)[0] == a[0];
      assert a[0] + (Flatten(a[1..]) + Flatten(b)) == a[0] + Flatten(a[1..]) + Flatten(b);
    }
  }

  lemma {:induction false} OffsetsSnoc(parts: seq<bytes>, p: bytes, start: nat)
    ensures Offsets(parts + [p], start) == Offsets(parts, start) + [start + |Flatten(parts)|]
  {
    if parts != [] {
      OffsetsSnoc(parts[1..], p, start + |parts[0]|);
      assert (parts + [p])[1..] == parts[1..] + [p];
    } else {
      assert (parts + [p])[1..] == [];
    }
  }

  lemma {:induction false} FlattenSize(parts: seq<bytes>, size: nat)
    requires forall p :: p in parts ==> |p| == size
    ensures |Flatten(parts)| == Times(|parts|, size)
  {
    if parts != [] {
      FlattenSize(parts[1..], size);
      TimesStep(|parts| - 1, size);
    }
  }

  lemma {:induction false} MaxOfBounds(s: seq<nat>, x: nat)
    requires x in s
    ensures x <= MaxOf(s)
  {
    if x != s[0] { MaxOfBounds(s[1..], x); }
  }

  /** The flags tell the truth about themselves. */
  lemma FlagsDecode(compact: bool, offsets: seq<nat>)
    ensures var flags := ObjectFlags(compact, offsets);
      flags < 0x40 && HasFlag(flags, HAS_SCHEMA) && (HasFlag(flags, COMPACT_FOOTER) <==> compact)
      && OffsetWidth(flags) == (if MaxOf(offsets) < 255 then 1 else if MaxOf(offsets) < 65535 then 2 else 4)
    ensures ObjectFlags(compact, offsets)
      == 0x01 + 0x02 + (if compact then 0x20 else 0)
         + (if MaxOf(offsets) < 255 then 0x08 else if MaxOf(offsets) < 65535 then 0x10 else 0)
  {}
}
