/** What is written is read back: the two reading phases undo serialisation at every position. */
module RoundTrip {
  import opened Bytes
  import opened Hashing
  import opened DecimalCodec
  import opened Decimals
  import opened Values
  import opened Layouts
  import opened Interpret

  // ---- single elements

  lemma ElemRoundTrip(e: Elem, x: int, inArray: bool)
    requires ElemWritable(e, x, inArray) && e.width > 0
    requires e.style == RawByte ==> e.width == 1
    requires e.style == CodeUnit ==> e.width == 2
    ensures DecodeElem(e, ToLE(x, e.width)) == ObservedElem(e, x)
  {
    FromToLE(x, e.width);
    FromToSignedLE(x, e.width);
    Widths();
    hide ToLE, FromLE, FromSignedLE, Pow256;
    match e.style
    case Signed =>
    case Pattern => FromToLENat(x, e.width);
    case RawByte =>
    case CodeUnit =>
    case Flag => if x == 1 { OneIsSmall(e.width); }
  }

  lemma OneIsSmall(n: nat)
    requires n > 0
    ensures 1 % Pow256(n) == 1
  {
    ModUnique(1, Pow256(n), 0, 1);
  }

  lemma {:induction false} ElemsRoundTrip(e: Elem, xs: seq<int>)
    requires e.width > 0
    requires e.style == RawByte ==> e.width == 1
    requires e.style == CodeUnit ==> e.width == 2
    requires forall i :: 0 <= i < |xs| ==> ElemWritable(e, xs[i], true)
    ensures DecodeElems(e, EncodeElems(xs, e.width)) == ObservedElems(e, xs)
  {
    if xs == [] {
      assert EncodeElems(xs, e.width) == [];
    } else {
      var b := EncodeElems(xs, e.width);
      ElemRoundTrip(e, xs[0], true);
      ElemsRoundTrip(e, xs[1..]);
      assert b[..e.width] == ToLE(xs[0], e.width);
      assert b[e.width..] == EncodeElems(xs[1..], e.width);
    }
  }

  lemma {:induction false} ElemsObserved(e: Elem, xs: seq<int>)
    requires e.width > 0
    requires forall i :: 0 <= i < |xs| ==> ElemWritable(e, xs[i], true)
    ensures ObservedElems(e, xs) == Ok(xs) <==> forall i :: 0 <= i < |xs| ==> CleanElem(e, xs[i])
  {
    if xs != [] {
      ElemsObserved(e, xs[1..]);
      ElemObserved(e, xs[0], true);
      assert xs == [xs[0]] + xs[1..];
      assert forall i :: 1 <= i < |xs| ==> xs[i] == xs[1..][i - 1];
      if forall i :: 0 <= i < |xs[1..]| ==> CleanElem(e, xs[1..][i]) {
        assert CleanElem(e, xs[0]) ==> forall i :: 0 <= i < |xs| ==> CleanElem(e, xs[i]);
      } else {
        var i :| 0 <= i < |xs[1..]| && !CleanElem(e, xs[1..][i]);
        assert !CleanElem(e, xs[i + 1]);
      }
    }
  }

  lemma ElemObserved(e: Elem, x: int, inArray: bool)
    requires e.width > 0 && ElemWritable(e, x, inArray)
    ensures ObservedElem(e, x) == Ok(x) <==> CleanElem(e, x)
  {
    WrapIdentity(x, e.width);
  }

  // ---- flat values

  lemma HeadIsCode(v: Value, compact: bool)
    requires WellFormed(v)
    ensures Encode(v, compact) != [] && Encode(v, compact)[0] == CodeOf(v)
    ensures CodeOf(v) == TC_NULL <==> v.Null?
    ensures KindOf(CodeOf(v)) != UnknownKind
  {
    KindsOfCodes();
    hide KindOf, ToLE, Flatten, Magnitude, PermuteUuid, EncodeElems, MetaFits;
    match v {
      case Container(code, meta, elems) =>
        var k := KindOf(code);
        assert Encode(v, compact) == ContainerHeader(code, k.header, meta, |elems| / k.perEntry) + Flatten(EncodeEach(elems, compact));
      case Obj(cls, version, fields) =>
        var flags, header, data, footer := ObjectParts(cls, version, compact, EncodeEach(fields, compact));
        assert Encode(v, compact)[0] == header[0];
      case _ =>
        FlatHead(v);
        hide EncodeFlat, WellFormed;
    }
  }

  lemma FlatHead(v: Value)
    requires WellFormed(v) && !v.Container? && !v.Obj?
    ensures EncodeFlat(v) != [] && (CodeOf(v) == TC_NULL <==> v.Null?) && KindOf(CodeOf(v)) != UnknownKind
  {
    KindsOfCodes();
    hide KindOf, ToLE, Magnitude, PermuteUuid, EncodeElems;
  }

  lemma CountField(n: nat)
    requires n < MAX_LENGTH
    ensures FromLE(ToLE(n, 4)) == n && FromSignedLE(ToLE(n, 4)) == n
  {
    Widths();
    FromToLENat(n, 4);
  }

  /** A length field four bytes wide, found where the parser looks for it. */
  lemma LengthAt(buf: bytes, pos: nat, bs: bytes, off: nat, n: nat)
    requires At(buf, pos, bs) && off + 4 <= |bs| && bs[off..off + 4] == ToLE(n, 4) && n < MAX_LENGTH
    ensures FromLE(Slice(buf, pos + off, 4)) == n
  {
    AtSlice(buf, pos, bs, off, 4);
    CountField(n);
  }

  lemma FlatParse(buf: bytes, pos: nat, v: Value)
    requires WellFormed(v) && !v.Container? && !v.Obj? && !v.Null?
    requires At(buf, pos, EncodeFlat(v))
    ensures FlatSize(KindOf(CodeOf(v)), buf, pos) == |EncodeFlat(v)|
  {
    KindsOfCodes();
    hide KindOf, ToLE, FromLE, Magnitude, PermuteUuid, EncodeElems, At, Slice;
    var bs := EncodeFlat(v);
    match v
    case Str(utf8) =>
      assert bs[1..5] == ToLE(|utf8|, 4);
      LengthAt(buf, pos, bs, 1, |utf8|);
    case Dec(number) =>
      var n := MagnitudeLength(number.coefficient);
      assert bs[5..9] == ToLE(n, 4);
      LengthAt(buf, pos, bs, 5, n);
    case PrimArray(code, xs) =>
      assert bs[1..5] == ToLE(|xs|, 4);
      LengthAt(buf, pos, bs, 1, |xs|);
    case Wrapped(payload, offset) =>
      assert bs[1..5] == ToLE(|payload|, 4);
      LengthAt(buf, pos, bs, 1, |payload|);
    case _ =>
  }

  lemma PermuteTwice(octets: bytes)
    requires |octets| == 16
    ensures PermuteUuid(PermuteUuid(octets)) == octets
  {}

  /** A decimal's bytes, whoever wrote them, are read by the arithmetic of the current context. */
  lemma DecimalRead(negative: bool, coefficient: nat, scale: int)
    ensures ReadFlat(TC_DECIMAL, DecimalBytes(negative, coefficient, scale))
      == var number := ReadNumber(CONTEXT, negative, coefficient, WrapSigned(scale, 4));
         if number.None? then Err(DecimalSignal) else Ok(Dec(number.value))
  {
    KindsOfCodes();
    hide KindOf, ToLE, FromSignedLE, Magnitude, DecodeMagnitude, WrapSigned, ReadNumber;
    var bs, data := DecimalBytes(negative, coefficient, scale), Magnitude(negative, coefficient);
    assert bs[1..5] == ToLE(scale, 4) && bs[9..] == data;
    FromToSignedLE(scale, 4);
    MagnitudeRoundTrip(negative, coefficient);
  }

  lemma FlatRead(v: Value)
    requires WellFormed(v) && !v.Container? && !v.Obj? && !v.Null?
    ensures ReadFlat(CodeOf(v), EncodeFlat(v)) == ObservedFlat(v)
  {
    KindsOfCodes();
    KindShapes(CodeOf(v));
    hide KindOf, ToLE, FromLE, FromSignedLE, Magnitude, DecodeMagnitude, PermuteUuid, EncodeElems, DecodeElems,
         WrapSigned, UpToNul, ReadNumber, DecimalBytes;
    var bs := EncodeFlat(v);
    match v
    case Prim(code, x) =>
      var e := KindOf(code).elem;
      assert bs[1..] == ToLE(x, e.width);
      ElemRoundTrip(e, x, false);
    case Pair(code, a, b) =>
      var k := KindOf(code);
      assert bs[1..1 + k.width1] == ToLE(a, k.width1);
      assert bs[1 + k.width1..] == ToLE(b, k.width2);
      FromToSignedLE(a, k.width1);
      FromToSignedLE(b, k.width2);
    case Uuid(octets) =>
      assert bs[1..] == PermuteUuid(octets);
      PermuteTwice(octets);
    case Str(utf8) =>
      assert bs[1..5] == ToLE(|utf8|, 4) && bs[5..] == utf8;
      CountField(|utf8|);
    case Dec(number) =>
      DecimalRead(number.negative, number.coefficient, -number.exponent);
    case PrimArray(code, xs) =>
      assert bs[5..] == EncodeElems(xs, KindOf(code).elem.width);
      ElemsRoundTrip(KindOf(code).elem, xs);
    case Wrapped(payload, offset) =>
      assert bs[5..|bs| - 4] == payload && bs[|bs| - 4..] == ToLE(offset, 4);
      FromToSignedLE(offset, 4);
      WrapIdentity(offset, 4);
  }

  // ---- headers

  lemma ContainerHeaderDecodes(code: byte, h: HeaderStyle, meta: int, count: nat)
    requires MetaFits(h, meta) && count < MAX_LENGTH
    ensures var b := ContainerHeader(code, h, meta, count);
      b[CountAt(h)..CountAt(h) + 4] == ToLE(count, 4) && MetaOf(h, b) == meta && b[0] == code
  {
    var b := ContainerHeader(code, h, meta, count);
    match h
    case CountOnly =>
    case TypeIdCount =>
      assert b[1..5] == ToLE(meta, 4);
      FromToSignedLE(meta, 4);
      WrapIdentity(meta, 4);
    case CountHint =>
      assert b[5..6] == ToLE(meta, 1);
      FromToSignedLE(meta, 1);
      WrapIdentity(meta, 1);
  }

  lemma SchemaIdFits(cls: ClassInfo)
    ensures FitsSigned(cls.SchemaIdentifier(), 4)
  {
    Widths();
    Wrap32Range(Fnv1a(FieldIdOctets(cls.FieldIds())));
  }

  lemma ObjectHeaderDecodes(cls: ClassInfo, version: int, flags: nat, hash: int, length: nat, schemaOffset: nat)
    requires FitsSigned(cls.typeId, 4) && flags < 0x1_0000
    ensures DecodeHeader(ObjectHeader(cls, version, flags, hash, length, schemaOffset))
         == HeaderFields(WrapSigned(version, 1), flags, cls.typeId, cls.SchemaIdentifier())
  {
    var b := ObjectHeader(cls, version, flags, hash, length, schemaOffset);
    hide ToLE, FromLE, FromSignedLE, WrapSigned, Pow256, SchemaId;
    assert b[1..2] == ToLE(version, 1);
    assert b[2..4] == ToLE(flags, 2);
    assert b[4..8] == ToLE(cls.typeId, 4);
    assert b[16..20] == ToLE(cls.SchemaIdentifier(), 4);
    FromToSignedLE(version, 1);
    Widths();
    FromToLENat(flags, 2);
    FromToSignedLE(cls.typeId, 4);
    WrapIdentity(cls.typeId, 4);
    SchemaIdFits(cls);
    FromToSignedLE(cls.SchemaIdentifier(), 4);
    WrapIdentity(cls.SchemaIdentifier(), 4);
  }

  /** A complex object as its three parts. */
  lemma ObjectParts(cls: ClassInfo, version: int, compact: bool, parts: seq<bytes>)
    returns (flags: nat, header: bytes, data: bytes, footer: bytes)
    requires |parts| == |cls.schema|
    ensures flags == ObjectFlags(compact, Offsets(parts, HEADER_LENGTH))
    ensures header == ObjectHeader(cls, version, flags, BytesHash(data), HEADER_LENGTH + |data| + |footer|, HEADER_LENGTH + |data|)
    ensures data == Flatten(parts)
    ensures footer == Flatten(FooterEntries(flags, cls.FieldIds(), Offsets(parts, HEADER_LENGTH)))
    ensures ObjectBytes(cls, version, compact, parts) == header + data + footer
    ensures |footer| == Times(|parts|, EntrySize(flags))
  {
    hide ToLE, Flatten, Offsets, ObjectFlags, BytesHash, EntrySize, FooterEntry, ObjectHeader;
    data := Flatten(parts);
    var offsets := Offsets(parts, HEADER_LENGTH);
    flags := ObjectFlags(compact, offsets);
    var entries := FooterEntries(flags, cls.FieldIds(), offsets);
    footer := Flatten(entries);
    header := ObjectHeader(cls, version, flags, BytesHash(data), HEADER_LENGTH + |data| + |footer|, HEADER_LENGTH + |data|);
    FlattenSize(entries, EntrySize(flags));
  }

  // ---- lists of values

  ghost predicate AllWellFormed(vs: seq<Value>, classes: seq<Class>) {
    |vs| == |classes| && forall i :: 0 <= i < |vs| ==>
      WellFormed(vs[i]) && Accepts(classes[i], vs[i])
      && (classes[i].Typed? ==> KindOf(classes[i].code) != UnknownKind)
  }

  predicate AllRegistered(registry: Registry, vs: seq<Value>) {
    forall i :: 0 <= i < |vs| ==> Registered(registry, vs[i])
  }

  predicate AllAgree(registry: Registry, vs: seq<Value>) {
    forall i :: 0 <= i < |vs| ==> Agrees(registry, vs[i])
  }

  predicate AnyObject(vs: seq<Value>) {
    exists i :: 0 <= i < |vs| && HasObject(vs[i])
  }

  lemma ListStep(registry: Registry, vs: seq<Value>)
    requires vs != []
    ensures AllRegistered(registry, vs) <==> Registered(registry, vs[0]) && AllRegistered(registry, vs[1..])
    ensures AnyObject(vs) <==> HasObject(vs[0]) || AnyObject(vs[1..])
  {
    assert forall i :: 1 <= i < |vs| ==> vs[i] == vs[1..][i - 1];
    if !AllRegistered(registry, vs[1..]) {
      var i :| 0 <= i < |vs[1..]| && !Registered(registry, vs[1..][i]);
      assert !Registered(registry, vs[i + 1]);
    }
    if AnyObject(vs[1..]) {
      var i :| 0 <= i < |vs[1..]| && HasObject(vs[1..][i]);
      assert HasObject(vs[i + 1]);
    }
  }

  /** The footer style the client remembers after reading the value. */
  function StyleAfter(style: Option<bool>, hasObject: bool, compact: bool): Option<bool> {
    if hasObject then Some(compact) else style
  }

  // ---- phase one

  /** Parsing a written value at any position succeeds exactly when its objects are registered,
      yields the value's layout, and leaves the cursor just behind the value. */
  lemma {:induction false} ParseBack(registry: Registry, buf: bytes, v: Value, cls: Class, compact: bool, cur: Cursor)
    requires WellFormed(v) && Accepts(cls, v) && (cls.Typed? ==> KindOf(cls.code) != UnknownKind)
    requires At(buf, cur.pos, Encode(v, compact))
    requires Agrees(registry, v) && cur.style != Some(!compact)
    ensures Registered(registry, v) ==>
      Parse(registry, buf, cls, cur) == Ok((LayoutOf(v, compact),
        Cursor(cur.pos + |Encode(v, compact)|, StyleAfter(cur.style, HasObject(v), compact))))
    ensures !Registered(registry, v) ==> Parse(registry, buf, cls, cur).Err?
    decreases v, 1
  {
    hide KindOf, At, Slice, WellFormed, Encode, LayoutOf, Registered, Agrees, HasObject, Parse, ParseAs, ParseObject;
    HeadIsCode(v, compact);
    HeadAt(buf, cur.pos, Encode(v, compact));
    ParseByCode(registry, buf, v, cls, cur);
    if v.Container? {
      ParseContainerBack(registry, buf, v, compact, cur);
    } else if v.Obj? {
      ParseAsObject(registry, buf, cur);
      ParseObjectBack(registry, buf, v, compact, cur);
    } else {
      FlatFacts(registry, v, compact);
      if !v.Null? { ParseFlatBack(registry, buf, v, compact, cur); }
    }
  }

  lemma ParseAsObject(registry: Registry, buf: bytes, cur: Cursor)
    requires Slice(buf, cur.pos, 1) == [TC_COMPLEX_OBJECT]
    ensures ParseAs(registry, buf, TC_COMPLEX_OBJECT, cur) == ParseObject(registry, buf, cur)
  {
    KindsOfCodes();
    hide KindOf, ParseObject;
  }

  lemma FlatFacts(registry: Registry, v: Value, compact: bool)
    requires !v.Container? && !v.Obj?
    ensures Registered(registry, v) && !HasObject(v) && Encode(v, compact) == EncodeFlat(v)
    ensures LayoutOf(v, compact) == if v.Null? then NullL else FlatL(|EncodeFlat(v)|)
    ensures v.Null? ==> EncodeFlat(v) == [TC_NULL]
  {
    hide EncodeElems, Magnitude, KindOf, ToLE;
  }

  lemma HeadAt(buf: bytes, pos: nat, bs: bytes)
    requires At(buf, pos, bs) && bs != []
    ensures pos < |buf| && buf[pos] == bs[0] && Slice(buf, pos, 1) == [bs[0]]
  {
    AtSlice(buf, pos, bs, 0, 1);
  }

  /** Whatever class reads it, a value is parsed by the class of its own type code. */
  lemma ParseByCode(registry: Registry, buf: bytes, v: Value, cls: Class, cur: Cursor)
    requires Accepts(cls, v) && (cls.Typed? ==> KindOf(cls.code) != UnknownKind)
    requires cur.pos < |buf| && buf[cur.pos] == CodeOf(v) && KindOf(CodeOf(v)) != UnknownKind
    requires Slice(buf, cur.pos, 1) == [CodeOf(v)]
    ensures v.Null? ==> Parse(registry, buf, cls, cur) == Ok((NullL, Advance(cur, 1)))
    ensures !v.Null? ==> Parse(registry, buf, cls, cur) == ParseAs(registry, buf, CodeOf(v), cur)
  {
    KindsOfCodes();
    hide KindOf, FlatSize, ParseObject, ParseEach;
  }

  lemma ParseFlatBack(registry: Registry, buf: bytes, v: Value, compact: bool, cur: Cursor)
    requires !v.Container? && !v.Obj? && !v.Null? && WellFormed(v) && At(buf, cur.pos, Encode(v, compact))
    ensures ParseAs(registry, buf, CodeOf(v), cur)
         == Ok((LayoutOf(v, compact), Cursor(cur.pos + |Encode(v, compact)|, cur.style)))
  {
    hide KindOf, FlatSize, EncodeFlat, Encode, LayoutOf, At, Slice, WellFormed, ParseObject, ParseEach, HeaderSize, CountAt;
    HeadIsCode(v, compact);
    FlatFacts(registry, v, compact);
    KindsOfCodes();
    FlatKind(v);
    HeadAt(buf, cur.pos, Encode(v, compact));
    FlatParse(buf, cur.pos, v);
  }

  lemma FlatKind(v: Value)
    requires !v.Container? && !v.Obj? && !v.Null? && WellFormed(v)
    ensures var k := KindOf(CodeOf(v));
      !k.ContainerKind? && !k.ObjectKind? && !k.NullKind? && !k.UnknownKind?
  {
    KindsOfCodes();
    hide KindOf;
  }

  lemma {:induction false} ParseContainerBack(registry: Registry, buf: bytes, v: Value, compact: bool, cur: Cursor)
    requires v.Container? && WellFormed(v) && At(buf, cur.pos, Encode(v, compact))
    requires Agrees(registry, v) && cur.style != Some(!compact)
    ensures Registered(registry, v) ==>
      ParseAs(registry, buf, v.code, cur) == Ok((LayoutOf(v, compact),
        Cursor(cur.pos + |Encode(v, compact)|, StyleAfter(cur.style, HasObject(v), compact))))
    ensures !Registered(registry, v) ==> ParseAs(registry, buf, v.code, cur).Err?
    decreases v, 0
  {
    hide Encode, EncodeEach, ParseEach, KindOf, At, Slice, ToLE, FromLE, Flatten, WellFormed, Agrees, Registered,
         HasObject, LayoutOf, LayoutsOf, ContainerHeader;
    ContainerFacts(registry, v, compact);
    var k := KindOf(v.code);
    var count := |v.elems| / k.perEntry;
    var header := ContainerHeader(v.code, k.header, v.meta, count);
    var body := Flatten(EncodeEach(v.elems, compact));
    AtSplit(buf, cur.pos, header, body);
    ContainerHeaderDecodes(v.code, k.header, v.meta, count);
    LengthAt(buf, cur.pos, header, CountAt(k.header), count);
    HeadAt(buf, cur.pos, header);
    ParseEachBack(registry, buf, v.elems, Repeat(k.element, |v.elems|), compact, Advance(cur, HeaderSize(k.header)));
    if count == 0 {
      assert |v.elems| == 0;
      EmptyLists(registry, v.elems, compact);
    }
  }

  lemma EmptyLists(registry: Registry, vs: seq<Value>, compact: bool)
    requires |vs| == 0
    ensures AllRegistered(registry, vs) && !AnyObject(vs) && LayoutsOf(vs, compact) == []
    ensures Flatten(EncodeEach(vs, compact)) == []
  {}

  /** A container taken apart once, so that the proofs above need no definitions. */
  lemma ContainerFacts(registry: Registry, v: Value, compact: bool)
    requires v.Container? && WellFormed(v) && Agrees(registry, v)
    ensures var k := KindOf(v.code);
      k.ContainerKind? && v.code != TC_NULL && |v.elems| % k.perEntry == 0 && |v.elems| < MAX_LENGTH
      && MetaFits(k.header, v.meta)
      && Encode(v, compact) == ContainerHeader(v.code, k.header, v.meta, |v.elems| / k.perEntry)
                               + Flatten(EncodeEach(v.elems, compact))
      && LayoutOf(v, compact) == SeqL(HeaderSize(k.header), LayoutsOf(v.elems, compact))
      && AllWellFormed(v.elems, Repeat(k.element, |v.elems|))
    ensures AllAgree(registry, v.elems)
    ensures AllRegistered(registry, v.elems) <==> Registered(registry, v)
    ensures AnyObject(v.elems) <==> HasObject(v)
  {
    hide KindOf, ContainerHeader, Flatten, EncodeFlat;
    KindsOfCodes();
    KindShapes(v.code);
  }

  lemma {:induction false} ParseObjectBack(registry: Registry, buf: bytes, v: Value, compact: bool, cur: Cursor)
    requires v.Obj? && WellFormed(v) && At(buf, cur.pos, Encode(v, compact))
    requires Agrees(registry, v) && cur.style != Some(!compact)
    ensures Registered(registry, v) ==>
      ParseObject(registry, buf, cur) == Ok((LayoutOf(v, compact),
        Cursor(cur.pos + |Encode(v, compact)|, Some(compact))))
    ensures !Registered(registry, v) ==> ParseObject(registry, buf, cur).Err?
    ensures HasObject(v)
    decreases v, 0
  {
    hide Encode, EncodeEach, ParseEach, KindOf, At, Slice, Flatten, WellFormed, Agrees, Registered, HasObject,
         LayoutOf, LayoutsOf, ObjectHeader, DecodeHeader, BytesHash, ObjectFlags, Offsets, HasFlag, EntrySize,
         SchemaId;
    var cls := v.cls;
    var parts := EncodeEach(v.fields, compact);
    ObjectIsWellFormed(v);
    ObjectEncoding(v, compact);
    ObjectLayout(v, compact);
    ObjectIsRegistered(registry, v);
    var flags, header, data, footer := ObjectParts(cls, v.version, compact, parts);
    AtSplit(buf, cur.pos, header + data, footer);
    AtSplit(buf, cur.pos, header, data);
    FlagsDecode(compact, Offsets(parts, HEADER_LENGTH));
    ObjectHeaderDecodes(cls, v.version, flags, BytesHash(data), HEADER_LENGTH + |data| + |footer|, HEADER_LENGTH + |data|);
    WholeAt(buf, cur.pos, header);
    if Lookup(registry, cls.typeId, cls.SchemaIdentifier()).Ok? {
      ParseEachBack(registry, buf, v.fields, FieldClasses(cls), compact, Advance(cur, HEADER_LENGTH));
    }
  }

  lemma WholeAt(buf: bytes, pos: nat, bs: bytes)
    requires At(buf, pos, bs)
    ensures pos + |bs| <= |buf| && buf[pos..pos + |bs|] == bs
  {}

  lemma ObjectIsWellFormed(v: Value)
    requires v.Obj? && WellFormed(v)
    ensures FitsSigned(v.cls.typeId, 4) && |v.fields| == |v.cls.schema|
    ensures AllWellFormed(v.fields, FieldClasses(v.cls))
  {
    hide KindOf, CodeOf;
  }

  lemma ObjectEncoding(v: Value, compact: bool)
    requires v.Obj? && |v.fields| == |v.cls.schema|
    ensures Encode(v, compact) == ObjectBytes(v.cls, v.version, compact, EncodeEach(v.fields, compact))
  {
    hide ObjectBytes, EncodeEach;
  }

  lemma ObjectLayout(v: Value, compact: bool)
    requires v.Obj?
    ensures LayoutOf(v, compact) == ObjectL(LayoutsOf(v.fields, compact),
      Times(|v.fields|, EntrySize(ObjectFlags(compact, Offsets(EncodeEach(v.fields, compact), HEADER_LENGTH)))))
    ensures HasObject(v)
  {
    hide ObjectBytes, EncodeEach, ObjectFlags, Offsets, EntrySize, Encode, EncodeFlat, LayoutsOf, KindOf, HeaderSize;
  }

  lemma ObjectIsRegistered(registry: Registry, v: Value)
    requires v.Obj? && Agrees(registry, v)
    ensures AllAgree(registry, v.fields)
    ensures Registered(registry, v) <==>
      Lookup(registry, v.cls.typeId, v.cls.SchemaIdentifier()).Ok? && AllRegistered(registry, v.fields)
    ensures Lookup(registry, v.cls.typeId, v.cls.SchemaIdentifier()).Ok? ==>
      Lookup(registry, v.cls.typeId, v.cls.SchemaIdentifier()).value == v.cls
  {
    hide SchemaId;
  }

  lemma {:induction false} ParseEachBack(registry: Registry, buf: bytes, vs: seq<Value>, classes: seq<Class>,
                                         compact: bool, cur: Cursor)
    requires AllWellFormed(vs, classes) && AllAgree(registry, vs) && cur.style != Some(!compact)
    requires At(buf, cur.pos, Flatten(EncodeEach(vs, compact)))
    ensures AllRegistered(registry, vs) ==>
      ParseEach(registry, buf, classes, cur) == Ok((LayoutsOf(vs, compact),
        Cursor(cur.pos + |Flatten(EncodeEach(vs, compact))|, StyleAfter(cur.style, AnyObject(vs), compact))))
    ensures !AllRegistered(registry, vs) ==> ParseEach(registry, buf, classes, cur).Err?
    decreases vs, 0
  {
    hide Parse, Encode, LayoutOf, WellFormed, Registered, Agrees, HasObject, KindOf, At;
    if vs != [] {
      var bs := Encode(vs[0], compact);
      AtSplit(buf, cur.pos, bs, Flatten(EncodeEach(vs[1..], compact)));
      ListStep(registry, vs);
      ParseBack(registry, buf, vs[0], classes[0], compact, cur);
      if Registered(registry, vs[0]) {
        var next := Cursor(cur.pos + |bs|, StyleAfter(cur.style, HasObject(vs[0]), compact));
        ParseEachBack(registry, buf, vs[1..], classes[1..], compact, next);
      }
    }
  }

  // ---- phase two

  lemma SizeOfLayout(registry: Registry, v: Value, compact: bool)
    requires WellFormed(v) && Agrees(registry, v) && Registered(registry, v)
    ensures |Encode(v, compact)| == Size(LayoutOf(v, compact))
  {
    hide Parse, Encode, LayoutOf, WellFormed, Agrees, Registered;
    ParseBack(registry, Encode(v, compact), v, Any, compact, Cursor(0, None));
  }

  lemma SizeOfLayouts(registry: Registry, vs: seq<Value>, classes: seq<Class>, compact: bool)
    requires AllWellFormed(vs, classes) && AllAgree(registry, vs) && AllRegistered(registry, vs)
    ensures |Flatten(EncodeEach(vs, compact))| == SizeAll(LayoutsOf(vs, compact))
  {
    hide ParseEach, EncodeEach, LayoutsOf, AllWellFormed, AllAgree, AllRegistered;
    ParseEachBack(registry, Flatten(EncodeEach(vs, compact)), vs, classes, compact, Cursor(0, None));
  }

  /** Interpreting a value's own bytes under its layout gives exactly what a reader observes. */
  lemma {:induction false} ReadBack(registry: Registry, v: Value, cls: Class, compact: bool)
    requires WellFormed(v) && Accepts(cls, v) && (cls.Typed? ==> KindOf(cls.code) != UnknownKind)
    requires Agrees(registry, v) && Registered(registry, v)
    ensures |Encode(v, compact)| == Size(LayoutOf(v, compact))
    ensures Read(registry, cls, LayoutOf(v, compact), Encode(v, compact)) == Observed(v)
    decreases v, 1
  {
    hide KindOf, WellFormed, Encode, LayoutOf, Registered, Agrees, Read, ReadAs, Observed, Size;
    SizeOfLayout(registry, v, compact);
    HeadIsCode(v, compact);
    ReadByCode(registry, v, cls, LayoutOf(v, compact), Encode(v, compact));
    if v.Container? {
      ReadContainerBack(registry, v, compact);
    } else if v.Obj? {
      ReadObjectBack(registry, v, compact);
    } else {
      FlatFacts(registry, v, compact);
      ReadFlatBack(registry, v);
    }
  }

  lemma ReadByCode(registry: Registry, v: Value, cls: Class, layout: Layout, bs: bytes)
    requires |bs| == Size(layout) && bs != [] && bs[0] == CodeOf(v)
    requires Accepts(cls, v) && (CodeOf(v) == TC_NULL <==> v.Null?)
    ensures Read(registry, cls, layout, bs) == if v.Null? then Ok(Null) else ReadAs(registry, CodeOf(v), layout, bs)
  {
    KindsOfCodes();
    hide KindOf, Size, ReadFlat, ReadEach, Collect;
  }

  lemma ReadFlatBack(registry: Registry, v: Value)
    requires WellFormed(v) && !v.Container? && !v.Obj?
    ensures v.Null? ==> Observed(v) == Ok(Null)
    ensures !v.Null? ==> ReadAs(registry, CodeOf(v), FlatL(|EncodeFlat(v)|), EncodeFlat(v)) == Observed(v)
  {
    if !v.Null? {
      HeadIsCode(v, true);
      FlatFacts(registry, v, true);
      FlatKind(v);
      FlatRead(v);
      hide KindOf, ReadFlat, EncodeFlat, WellFormed, ObservedFlat, Encode;
    }
  }

  lemma {:induction false} ReadContainerBack(registry: Registry, v: Value, compact: bool)
    requires v.Container? && WellFormed(v) && Agrees(registry, v) && Registered(registry, v)
    requires |Encode(v, compact)| == Size(LayoutOf(v, compact))
    ensures ReadAs(registry, v.code, LayoutOf(v, compact), Encode(v, compact)) == Observed(v)
    decreases v, 0
  {
    hide Encode, EncodeEach, ReadEach, KindOf, ToLE, FromLE, FromSignedLE, Flatten, WellFormed, Agrees, Registered,
         HasObject, LayoutOf, LayoutsOf, ContainerHeader, Observed, ObservedEach, Collect, MetaFits, MetaOf;
    ContainerFacts(registry, v, compact);
    var k := KindOf(v.code);
    var count := |v.elems| / k.perEntry;
    var header := ContainerHeader(v.code, k.header, v.meta, count);
    var body := Flatten(EncodeEach(v.elems, compact));
    var bs := Encode(v, compact);
    ContainerHeaderDecodes(v.code, k.header, v.meta, count);
    CountField(count);
    SliceOfSum(header, body, CountAt(k.header), 4);
    SliceOfSum(header, body, 0, |header|);
    assert bs[HeaderSize(k.header)..] == body;
    var classes := Repeat(k.element, |v.elems|);
    ReadEachBack(registry, v.elems, classes, compact);
    assert |v.elems| == count * k.perEntry;
    ObservedContainer(v);
  }

  lemma ObservedContainer(v: Value)
    requires v.Container? && KindOf(v.code).ContainerKind?
    ensures var vs := ObservedEach(v.elems);
      Observed(v) == (if vs.Err? then Err(vs.error)
                      else var r := Collect(KindOf(v.code).perEntry, vs.value);
                           if r.Err? then Err(r.error) else Ok(Container(v.code, v.meta, r.value)))
  {
    hide KindOf, Collect;
  }

  lemma SliceOfSum(a: bytes, b: bytes, off: nat, n: nat)
    requires off + n <= |a|
    ensures (a + b)[off..off + n] == a[off..off + n]
  {}

  lemma {:induction false} ReadObjectBack(registry: Registry, v: Value, compact: bool)
    requires v.Obj? && WellFormed(v) && Agrees(registry, v) && Registered(registry, v)
    requires |Encode(v, compact)| == Size(LayoutOf(v, compact))
    ensures ReadAs(registry, TC_COMPLEX_OBJECT, LayoutOf(v, compact), Encode(v, compact)) == Observed(v)
    decreases v, 0
  {
    hide Encode, EncodeEach, ReadEach, KindOf, Flatten, WellFormed, Agrees, Registered, HasObject, LayoutOf,
         LayoutsOf, ObjectHeader, DecodeHeader, BytesHash, ObjectFlags, Offsets, HasFlag, EntrySize, SchemaId,
         Observed, ObservedEach, WrapSigned;
    KindsOfCodes();
    var cls := v.cls;
    var parts := EncodeEach(v.fields, compact);
    ObjectIsWellFormed(v);
    ObjectEncoding(v, compact);
    ObjectLayout(v, compact);
    ObjectIsRegistered(registry, v);
    var flags, header, data, footer := ObjectParts(cls, v.version, compact, parts);
    FlagsDecode(compact, Offsets(parts, HEADER_LENGTH));
    ObjectHeaderDecodes(cls, v.version, flags, BytesHash(data), HEADER_LENGTH + |data| + |footer|, HEADER_LENGTH + |data|);
    var bs := Encode(v, compact);
    assert bs[..HEADER_LENGTH] == header;
    SizeOfLayouts(registry, v.fields, FieldClasses(cls), compact);
    assert bs[HEADER_LENGTH..HEADER_LENGTH + |data|] == data;
    assert bs[0] == header[0];
    ReadEachBack(registry, v.fields, FieldClasses(cls), compact);
    ObservedObject(v);
  }

  lemma ObservedObject(v: Value)
    requires v.Obj?
    ensures var vs := ObservedEach(v.fields);
      Observed(v) == (if vs.Err? then Err(vs.error) else Ok(Obj(v.cls, WrapSigned(v.version, 1), vs.value)))
  {
    hide WrapSigned;
  }

  lemma {:induction false} ReadEachBack(registry: Registry, vs: seq<Value>, classes: seq<Class>, compact: bool)
    requires AllWellFormed(vs, classes) && AllAgree(registry, vs) && AllRegistered(registry, vs)
    ensures |Flatten(EncodeEach(vs, compact))| == SizeAll(LayoutsOf(vs, compact))
    ensures ReadEach(registry, classes, LayoutsOf(vs, compact), Flatten(EncodeEach(vs, compact))) == ObservedEach(vs)
    decreases vs, 0
  {
    hide Read, Encode, LayoutOf, WellFormed, Registered, Agrees, KindOf, Observed, Size;
    SizeOfLayouts(registry, vs, classes, compact);
    if vs != [] {
      var bs := Encode(vs[0], compact);
      var rest := Flatten(EncodeEach(vs[1..], compact));
      ListStep(registry, vs);
      ReadBack(registry, vs[0], classes[0], compact);
      ReadEachBack(registry, vs[1..], classes[1..], compact);
      assert (bs + rest)[..|bs|] == bs && (bs + rest)[|bs|..] == rest;
    }
  }
}
