/** The first reading phase: `parse` walks the bytes, moves the cursor and builds a layout,
    the `ctypes` structure that the second phase lays over exactly those bytes. */
module Layouts {
  import opened Bytes
  import opened Values

  datatype Layout =
    | NullL                                          // the type code alone
    | FlatL(size: nat)                               // a structure without nested parts
    | SeqL(header: nat, elems: seq<Layout>)
    | ObjectL(fields: seq<Layout>, footer: nat)

  /** `ctypes.sizeof`. */
  function Size(l: Layout): nat {
    match l
    case NullL => 1
    case FlatL(n) => n
    case SeqL(h, elems) => h + SizeAll(elems)
    case ObjectL(fields, footer) => HEADER_LENGTH + SizeAll(fields) + footer
  }

  function SizeAll(ls: seq<Layout>): nat {
    if ls == [] then 0 else Size(ls[0]) + SizeAll(ls[1..])
  }

  datatype Error =
    | UnknownTypeCode       // ParseError
    | BufferTooSmall        // from_buffer_copy
    | NotRegistered         // no class for the type and schema identifiers
    | StyleChanged          // the footer style differs from the client's
    | DecimalSignal         // decimal.Overflow, DivisionByZero or InvalidOperation
    | Overflow | EmptyDecimal | UnhashableKey | WrongLayout
    | BufferExported        // a held empty view blocks the stream
    | NotSendable           // wrapped data cannot be written

  datatype Result<+T> = Ok(value: T) | Err(error: Error)

  /** Classes of complex objects by type and schema identifier. */
  type Registry = map<(int, int), ClassInfo>

  /** `query_binary_type` on a filled registry. Schema identifier 0 is falsy in Python: the
      lookup then answers with the type's whole dictionary, which is not a class. */
  function Lookup(registry: Registry, typeId: int, schemaId: int): Result<ClassInfo> {
    if schemaId == 0 || (typeId, schemaId) !in registry then Err(NotRegistered)
    else Ok(registry[(typeId, schemaId)])
  }

  /** The position in the stream and the footer style the client remembers. */
  datatype Cursor = Cursor(pos: nat, style: Option<bool>)

  function Left(buf: bytes, pos: nat): nat {
    if pos < |buf| then |buf| - pos else 0
  }

  function Advance(cur: Cursor, n: nat): Cursor {
    cur.(pos := cur.pos + n)
  }

  /** Where the 4-byte count stands in a container's header. */
  function CountAt(h: HeaderStyle): nat {
    if h.TypeIdCount? then 5 else 1
  }

  function FlatSize(k: Kind, buf: bytes, pos: nat): nat {
    match k
    case PrimKind(e) => 1 + e.width
    case PairKind(w1, w2) => 1 + w1 + w2
    case UuidKind => 17
    case StringKind => 5 + FromLE(Slice(buf, pos + 1, 4))
    case DecimalKind => 9 + FromLE(Slice(buf, pos + 5, 4))
    case PrimArrayKind(e) => 5 + FromLE(Slice(buf, pos + 1, 4)) * e.width
    case WrappedKind => 9 + FromLE(Slice(buf, pos + 1, 4))
    case _ => 1
  }

  datatype HeaderFields = HeaderFields(version: int, flags: nat, typeId: int, schemaId: int)

  function DecodeHeader(h: bytes): HeaderFields
    requires |h| == HEADER_LENGTH
  {
    HeaderFields(FromSignedLE(h[1..2]), FromLE(h[2..4]), FromSignedLE(h[4..8]), FromSignedLE(h[16..20]))
  }

  function FieldClasses(cls: ClassInfo): (cs: seq<Class>)
    ensures |cs| == |cls.schema|
  {
    seq(|cls.schema|, i requires 0 <= i < |cls.schema| => Typed(cls.schema[i].code))
  }

  function Repeat(cls: Class, n: nat): (cs: seq<Class>)
    ensures |cs| == n
  {
    seq(n, _ => cls)
  }

  /** The client remembers the first footer style it meets and refuses any other. */
  function SetStyle(style: Option<bool>, compact: bool): Result<Option<bool>> {
    if style == Some(!compact) then Err(StyleChanged) else Ok(Some(compact))
  }

  /** `parse` of a class at the cursor. */
  function Parse(registry: Registry, buf: bytes, cls: Class, cur: Cursor): (r: Result<(Layout, Cursor)>)
    ensures r.Ok? ==> r.value.1.pos == cur.pos + Size(r.value.0) && Size(r.value.0) > 0
    decreases Left(buf, cur.pos), 2
  {
    match cls
    case Any =>
      if cur.pos >= |buf| || KindOf(buf[cur.pos]) == UnknownKind then Err(UnknownTypeCode)
      else ParseAs(registry, buf, buf[cur.pos], cur)
    case Typed(code) => ParseAs(registry, buf, code, cur)
  }

  function ParseAs(registry: Registry, buf: bytes, code: byte, cur: Cursor): (r: Result<(Layout, Cursor)>)
    ensures r.Ok? ==> r.value.1.pos == cur.pos + Size(r.value.0) && Size(r.value.0) > 0
    decreases Left(buf, cur.pos), 1
  {
    var k := KindOf(code);
    if k == UnknownKind then Err(UnknownTypeCode)
    else if k == NullKind || Slice(buf, cur.pos, 1) == [TC_NULL] then Ok((NullL, Advance(cur, 1)))
    else match k
    case ContainerKind(h, element, perEntry) =>
      var count := FromLE(Slice(buf, cur.pos + CountAt(h), 4));
      var start := Advance(cur, HeaderSize(h));
      if count == 0 then Ok((SeqL(HeaderSize(h), []), start))
      else
        var r := ParseEach(registry, buf, Repeat(element, count * perEntry), start);
        if r.Err? then Err(r.error) else Ok((SeqL(HeaderSize(h), r.value.0), r.value.1))
    case ObjectKind => ParseObject(registry, buf, cur)
    case _ => Ok((FlatL(FlatSize(k, buf, cur.pos)), Advance(cur, FlatSize(k, buf, cur.pos))))
  }

  function ParseObject(registry: Registry, buf: bytes, cur: Cursor): (r: Result<(Layout, Cursor)>)
    ensures r.Ok? ==> r.value.1.pos == cur.pos + Size(r.value.0) && Size(r.value.0) > 0
    decreases Left(buf, cur.pos), 0
  {
    if cur.pos + HEADER_LENGTH > |buf| then Err(BufferTooSmall)
    else
      var h := DecodeHeader(buf[cur.pos..cur.pos + HEADER_LENGTH]);
      var cls := Lookup(registry, h.typeId, h.schemaId);
      if cls.Err? then Err(cls.error)
      else
        var r := ParseEach(registry, buf, FieldClasses(cls.value), Advance(cur, HEADER_LENGTH));
        if r.Err? then Err(r.error)
        else
          var footer := if HasFlag(h.flags, HAS_SCHEMA) then Times(|cls.value.schema|, EntrySize(h.flags)) else 0;
          var style := SetStyle(r.value.1.style, HasFlag(h.flags, COMPACT_FOOTER));
          if style.Err? then Err(style.error)
          else Ok((ObjectL(r.value.0, footer), Cursor(r.value.1.pos + footer, style.value)))
  }

  /** The classes one after another, as `Struct.parse` and the element loops run them. */
  function ParseEach(registry: Registry, buf: bytes, classes: seq<Class>, cur: Cursor):
    (r: Result<(seq<Layout>, Cursor)>)
    ensures r.Ok? ==> r.value.1.pos == cur.pos + SizeAll(r.value.0) && |r.value.0| == |classes|
    decreases Left(buf, cur.pos), 3, |classes|
  {
    if classes == [] then Ok(([], cur))
    else
      var first := Parse(registry, buf, classes[0], cur);
      if first.Err? then Err(first.error)
      else
        var rest := ParseEach(registry, buf, classes[1..], first.value.1);
        if rest.Err? then Err(rest.error)
        else Ok(([first.value.0] + rest.value.0, rest.value.1))
  }
}
