/** `parse`: the readers move the cursor and append to field lists; they refine `Parse` on every buffer. */
module Reader {
  import opened Bytes
  import opened Values
  import opened Layouts
  import opened Interpret
  import opened BinaryStreams

  /** Where the stream stands, together with the style its client remembers. */
  function CursorOf(s: BinaryStream): Cursor
    reads s, s.client
  {
    Cursor(s.pos, s.client.style)
  }

  /** A method's outcome `r` and final cursor are what the specification says. */
  predicate Matches<T(==)>(spec: Result<(T, Cursor)>, r: Result<T>, cur: Cursor) {
    if spec.Err? then r == Err(spec.error) else r == Ok(spec.value.0) && cur == spec.value.1
  }

  /** The specification of a loop that has produced `done` and stands before the rest. */
  function Prepend(done: seq<Layout>, rest: Result<(seq<Layout>, Cursor)>): Result<(seq<Layout>, Cursor)> {
    if rest.Err? then rest else Ok((done + rest.value.0, rest.value.1))
  }

  lemma PrependNothing(rest: Result<(seq<Layout>, Cursor)>)
    ensures Prepend([], rest) == rest
  {
    if rest.Ok? { assert [] + rest.value.0 == rest.value.0; }
  }

  lemma ParseEachStep(registry: Registry, buf: bytes, classes: seq<Class>, i: nat, done: seq<Layout>, cur: Cursor)
    requires i < |classes|
    ensures var first := Parse(registry, buf, classes[i], cur);
      Prepend(done, ParseEach(registry, buf, classes[i..], cur))
      == if first.Err? then Err(first.error)
         else Prepend(done + [first.value.0], ParseEach(registry, buf, classes[i + 1..], first.value.1))
  {
    hide Parse;
    var rest := classes[i..];
    assert rest[0] == classes[i] && rest[1..] == classes[i + 1..];
    var first := Parse(registry, buf, classes[i], cur);
    if first.Ok? {
      var more := ParseEach(registry, buf, classes[i + 1..], first.value.1);
      if more.Ok? {
        assert done + ([first.value.0] + more.value.0) == done + [first.value.0] + more.value.0;
      }
    }
  }

  /** `AnyDataObject.parse` or the `parse` of the class of a type code. */
  method ParseClass(s: BinaryStream, cls: Class) returns (r: Result<Layout>)
    modifies s`pos, s`viewHeld, s.client`style
    ensures Matches(Parse(s.client.registry, s.data, cls, old(CursorOf(s))), r, CursorOf(s))
    decreases Left(s.data, s.pos), 2
  {
    hide KindOf, ParseAs;
    match cls
    case Any =>
      var typeCode := s.GetSlice(s.pos, 1);
      if typeCode == [] || KindOf(typeCode[0]) == UnknownKind { return Err(UnknownTypeCode); }
      r := ParseTyped(s, typeCode[0]);
    case Typed(code) =>
      r := ParseTyped(s, code);
  }

  method ParseTyped(s: BinaryStream, code: byte) returns (r: Result<Layout>)
    modifies s`pos, s`viewHeld, s.client`style
    ensures Matches(ParseAs(s.client.registry, s.data, code, old(CursorOf(s))), r, CursorOf(s))
    decreases Left(s.data, s.pos), 1
  {
    hide KindOf, ParseEach, ParseObject, FlatSize, Slice;
    var k := KindOf(code);
    if k == UnknownKind { return Err(UnknownTypeCode); }
    if k == NullKind {
      s.Seek(s.pos + 1);
      return Ok(NullL);
    }
    var head := s.GetSlice(s.pos, 1);
    if head == [TC_NULL] {
      s.Seek(s.pos + 1);
      return Ok(NullL);
    }
    if k.ContainerKind? {
      ContainerSpecAgrees(s.client.registry, s.data, code, CursorOf(s));
      r := ParseContainer(s, k);
    } else if k.ObjectKind? {
      r := ParseBinaryObject(s);
    } else {
      r := ParseFlat(s, k);
    }
  }

  /** The length, if there is one, is read ahead of the cursor; the structure is then skipped whole. */
  method ParseFlat(s: BinaryStream, k: Kind) returns (r: Result<Layout>)
    modifies s`pos, s`viewHeld
    ensures r == Ok(FlatL(FlatSize(k, s.data, old(s.pos)))) && s.pos == old(s.pos) + FlatSize(k, s.data, old(s.pos))
  {
    var size := 1;
    match k {
      case PrimKind(e) => size := 1 + e.width;
      case PairKind(w1, w2) => size := 1 + w1 + w2;
      case UuidKind => size := 17;
      case StringKind =>
        var length := s.GetSlice(s.pos + 1, 4);
        size := 5 + FromLE(length);
      case DecimalKind =>
        var length := s.GetSlice(s.pos + 5, 4);
        size := 9 + FromLE(length);
      case PrimArrayKind(e) =>
        var length := s.GetSlice(s.pos + 1, 4);
        size := 5 + FromLE(length) * e.width;
      case WrappedKind =>
        var length := s.GetSlice(s.pos + 1, 4);
        size := 9 + FromLE(length);
      case _ =>
    }
    s.Seek(s.pos + size);
    r := Ok(FlatL(size));
  }

  /** The specification's container branch, on its own. */
  function ContainerSpec(registry: Registry, buf: bytes, k: Kind, cur: Cursor): Result<(Layout, Cursor)>
    requires k.ContainerKind?
  {
    var count := FromLE(Slice(buf, cur.pos + CountAt(k.header), 4));
    var r := ParseEach(registry, buf, Repeat(k.element, count * k.perEntry), Advance(cur, HeaderSize(k.header)));
    if r.Err? then Err(r.error) else Ok((SeqL(HeaderSize(k.header), r.value.0), r.value.1))
  }

  lemma ContainerSpecAgrees(registry: Registry, buf: bytes, code: byte, cur: Cursor)
    requires KindOf(code).ContainerKind? && Slice(buf, cur.pos, 1) != [TC_NULL]
    ensures ParseAs(registry, buf, code, cur) == ContainerSpec(registry, buf, KindOf(code), cur)
  {
    hide KindOf, Slice, ParseObject;
  }

  method ParseContainer(s: BinaryStream, k: Kind) returns (r: Result<Layout>)
    requires k.ContainerKind?
    modifies s`pos, s`viewHeld, s.client`style
    ensures Matches(ContainerSpec(s.client.registry, s.data, k, old(CursorOf(s))), r, CursorOf(s))
    decreases Left(s.data, s.pos), 0
  {
    hide Parse, ParseEach;
    var countBytes := s.GetSlice(s.pos + CountAt(k.header), 4);
    var count := FromLE(countBytes);
    s.Seek(s.pos + HeaderSize(k.header));
    ghost var start, classes := CursorOf(s), Repeat(k.element, count * k.perEntry);
    var elements: seq<Layout> := [];
    var i := 0;
    assert classes[0..] == classes;
    PrependNothing(ParseEach(s.client.registry, s.data, classes, start));
    while i < count * k.perEntry
      invariant 0 <= i <= count * k.perEntry && s.pos >= start.pos
      invariant ParseEach(s.client.registry, s.data, classes, start)
             == Prepend(elements, ParseEach(s.client.registry, s.data, classes[i..], CursorOf(s)))
      decreases count * k.perEntry - i
    {
      ParseEachStep(s.client.registry, s.data, classes, i, elements, CursorOf(s));
      var element := ParseClass(s, k.element);
      if element.Err? { return Err(element.error); }
      elements := elements + [element.value];
      i := i + 1;
    }
    ParseEachEnd(s.client.registry, s.data, classes, i, elements, CursorOf(s));
    r := Ok(SeqL(HeaderSize(k.header), elements));
  }

  lemma ParseEachEnd(registry: Registry, buf: bytes, classes: seq<Class>, i: nat, done: seq<Layout>, cur: Cursor)
    requires i == |classes|
    ensures Prepend(done, ParseEach(registry, buf, classes[i..], cur)) == Ok((done, cur))
  {
    assert classes[i..] == [] && done + [] == done;
  }

  method ParseBinaryObject(s: BinaryStream) returns (r: Result<Layout>)
    modifies s`pos, s`viewHeld, s.client`style
    ensures Matches(ParseObject(s.client.registry, s.data, old(CursorOf(s))), r, CursorOf(s))
    decreases Left(s.data, s.pos), 0
  {
    hide Parse, ParseEach, KindOf, HasFlag, EntrySize;
    if s.pos + HEADER_LENGTH > |s.data| { return Err(BufferTooSmall); }
    var header := s.GetSlice(s.pos, HEADER_LENGTH);
    var h := DecodeHeader(header);
    s.Seek(s.pos + HEADER_LENGTH);
    var cls := Lookup(s.client.registry, h.typeId, h.schemaId);
    if cls.Err? { return Err(cls.error); }
    var fields := ParseStruct(s, FieldClasses(cls.value));
    if fields.Err? { return Err(fields.error); }
    var footer := 0;
    if HasFlag(h.flags, HAS_SCHEMA) {
      footer := Times(|cls.value.schema|, EntrySize(h.flags));
      s.Seek(s.pos + footer);
    }
    // register the schema encoding approach
    var style := SetStyle(s.client.style, HasFlag(h.flags, COMPACT_FOOTER));
    if style.Err? { return Err(style.error); }
    s.client.style := style.value;
    r := Ok(ObjectL(fields.value, footer));
  }

  /** `Struct.parse`: the field classes in schema order. */
  method ParseStruct(s: BinaryStream, classes: seq<Class>) returns (r: Result<seq<Layout>>)
    modifies s`pos, s`viewHeld, s.client`style
    ensures Matches(ParseEach(s.client.registry, s.data, classes, old(CursorOf(s))), r, CursorOf(s))
    decreases Left(s.data, s.pos), 3
  {
    hide Parse, ParseEach;
    ghost var start := CursorOf(s);
    var fields: seq<Layout> := [];
    assert classes[0..] == classes;
    PrependNothing(ParseEach(s.client.registry, s.data, classes, start));
    for i := 0 to |classes|
      invariant s.pos >= start.pos
      invariant ParseEach(s.client.registry, s.data, classes, start)
             == Prepend(fields, ParseEach(s.client.registry, s.data, classes[i..], CursorOf(s)))
    {
      ParseEachStep(s.client.registry, s.data, classes, i, fields, CursorOf(s));
      var field := ParseClass(s, classes[i]);
      if field.Err? { return Err(field.error); }
      fields := fields + [field.value];
    }
    ParseEachEnd(s.client.registry, s.data, classes, |classes|, fields, CursorOf(s));
    r := Ok(fields);
  }

  /** Parse, read the parsed structure backward, and interpret it. */
  method DecodeValue(s: BinaryStream, cls: Class) returns (r: Result<Value>)
    modifies s`pos, s`viewHeld, s.client`style
    ensures Matches(Decode(s.client.registry, s.data, cls, old(CursorOf(s))), r, CursorOf(s))
  {
    hide Parse, Read, KindOf;
    var layout := ParseClass(s, cls);
    if layout.Err? { return Err(layout.error); }
    var structure := s.ReadBack(Size(layout.value));
    if structure.Err? { return Err(structure.error); }
    r := Read(s.client.registry, cls, layout.value, structure.value);
  }
}
