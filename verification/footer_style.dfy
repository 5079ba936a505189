/** The footer style of complex objects: other values do not depend on it, and a client that has met one style refuses
    the other. */
module FooterStyles {
  import opened Bytes
  import opened Hashing
  import opened Values
  import opened Layouts
  import opened Interpret
  import opened RoundTrip

  /** Only objects are written differently under the two styles. */
  lemma {:induction false} StyleIsForObjects(v: Value, c: bool, d: bool)
    requires !HasObject(v)
    ensures Encode(v, c) == Encode(v, d)
    decreases v, 1
  {
    hide KindOf, EncodeFlat, EncodeEach;
    if v.Container? { StyleIsForObjectsEach(v.elems, c, d); }
  }

  lemma {:induction false} StyleIsForObjectsEach(vs: seq<Value>, c: bool, d: bool)
    requires !AnyObject(vs)
    ensures EncodeEach(vs, c) == EncodeEach(vs, d)
    decreases vs, 0
  {
    hide Encode, HasObject;
    if vs != [] {
      ListStep(map[], vs);
      StyleIsForObjects(vs[0], c, d);
      StyleIsForObjectsEach(vs[1..], c, d);
    }
  }

  // ---- the other style is refused

  /** A value that holds an object is not parsed by a client that remembers the other style. */
  lemma {:induction false} OtherStyleIsRefused(registry: Registry, buf: bytes, v: Value, cls: Class, compact: bool, cur: Cursor)
    requires WellFormed(v) && Accepts(cls, v) && (cls.Typed? ==> KindOf(cls.code) != UnknownKind) && HasObject(v)
    requires At(buf, cur.pos, Encode(v, compact)) && Agrees(registry, v) && cur.style == Some(!compact)
    ensures Parse(registry, buf, cls, cur).Err?
    decreases v, 1
  {
    hide KindOf, At, Slice, WellFormed, Encode, LayoutOf, Registered, Agrees, Parse, ParseAs, ParseObject;
    HeadIsCode(v, compact);
    HeadAt(buf, cur.pos, Encode(v, compact));
    ParseByCode(registry, buf, v, cls, cur);
    if v.Container? {
      ContainerIsRefused(registry, buf, v, compact, cur);
    } else {
      assert v.Obj?;
      ParseAsObject(registry, buf, cur);
      ObjectIsRefused(registry, buf, v, compact, cur);
    }
  }

  lemma {:induction false} ContainerIsRefused(registry: Registry, buf: bytes, v: Value, compact: bool, cur: Cursor)
    requires v.Container? && WellFormed(v) && HasObject(v)
    requires At(buf, cur.pos, Encode(v, compact)) && Agrees(registry, v) && cur.style == Some(!compact)
    ensures ParseAs(registry, buf, v.code, cur).Err?
    decreases v, 0
  {
    hide Encode, EncodeEach, ParseEach, KindOf, At, Slice, ToLE, FromLE, Flatten, WellFormed, Agrees, Registered,
         HasObject, LayoutOf, LayoutsOf, ContainerHeader;
    ContainerFacts(registry, v, compact);
    var k := KindOf(v.code);
    var count := |v.elems| / k.perEntry;
    var header := ContainerHeader(v.code, k.header, v.meta, count);
    AtSplit(buf, cur.pos, header, Flatten(EncodeEach(v.elems, compact)));
    ContainerHeaderDecodes(v.code, k.header, v.meta, count);
    LengthAt(buf, cur.pos, header, CountAt(k.header), count);
    HeadAt(buf, cur.pos, header);
    EachIsRefused(registry, buf, v.elems, Repeat(k.element, |v.elems|), compact, Advance(cur, HeaderSize(k.header)));
  }

  lemma {:induction false} ObjectIsRefused(registry: Registry, buf: bytes, v: Value, compact: bool, cur: Cursor)
    requires v.Obj? && WellFormed(v)
    requires At(buf, cur.pos, Encode(v, compact)) && Agrees(registry, v) && cur.style == Some(!compact)
    ensures ParseObject(registry, buf, cur).Err?
    decreases v, 0
  {
    hide Encode, EncodeEach, ParseEach, KindOf, At, Slice, Flatten, WellFormed, Agrees, Registered, HasObject,
         LayoutOf, LayoutsOf, ObjectHeader, DecodeHeader, BytesHash, ObjectFlags, Offsets, HasFlag, EntrySize,
         SchemaId, AnyObject, AllRegistered, AllAgree, AllWellFormed;
    var cls, parts := v.cls, EncodeEach(v.fields, compact);
    ObjectIsWellFormed(v);
    ObjectEncoding(v, compact);
    ObjectIsRegistered(registry, v);
    var flags, header, data, footer := ObjectParts(cls, v.version, compact, parts);
    AtSplit(buf, cur.pos, header + data, footer);
    AtSplit(buf, cur.pos, header, data);
    FlagsDecode(compact, Offsets(parts, HEADER_LENGTH));
    ObjectHeaderDecodes(cls, v.version, flags, BytesHash(data), HEADER_LENGTH + |data| + |footer|, HEADER_LENGTH + |data|);
    WholeAt(buf, cur.pos, header);
    if Lookup(registry, cls.typeId, cls.SchemaIdentifier()).Ok? {
      var next := Advance(cur, HEADER_LENGTH);
      if AnyObject(v.fields) {
        EachIsRefused(registry, buf, v.fields, FieldClasses(cls), compact, next);
      } else {
        StyleIsForObjectsEach(v.fields, compact, !compact);
        ParseEachBack(registry, buf, v.fields, FieldClasses(cls), !compact, next);
      }
    }
  }

  lemma {:induction false} EachIsRefused(registry: Registry, buf: bytes, vs: seq<Value>, classes: seq<Class>,
                                         compact: bool, cur: Cursor)
    requires AllWellFormed(vs, classes) && AllAgree(registry, vs) && AnyObject(vs) && cur.style == Some(!compact)
    requires At(buf, cur.pos, Flatten(EncodeEach(vs, compact)))
    ensures ParseEach(registry, buf, classes, cur).Err?
    decreases vs, 0
  {
    hide Parse, Encode, LayoutOf, WellFormed, Registered, Agrees, HasObject, KindOf, At;
    var bs := Encode(vs[0], compact);
    AtSplit(buf, cur.pos, bs, Flatten(EncodeEach(vs[1..], compact)));
    ListStep(registry, vs);
    if HasObject(vs[0]) {
      OtherStyleIsRefused(registry, buf, vs[0], classes[0], compact, cur);
    } else {
      StyleIsForObjects(vs[0], compact, !compact);
      ParseBack(registry, buf, vs[0], classes[0], !compact, cur);
      if Registered(registry, vs[0]) {
        EachIsRefused(registry, buf, vs[1..], classes[1..], compact, Cursor(cur.pos + |bs|, cur.style));
      }
    }
  }
}
