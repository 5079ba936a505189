/** `from_python`: the writers, field by field and patch by patch, refine `ClientBytes` at every stream position. */
module Writer {
  import opened Bytes
  import opened Hashing
  import opened DecimalCodec
  import opened Decimals
  import opened Values
  import opened Layouts
  import opened RoundTrip
  import opened BinaryStreams

  /** Nothing in the value is wrapped data, which only servers write, and no decimal overflows the current context. */
  predicate Sendable(v: Value)
    decreases v
  {
    match v
    case Wrapped(_, _) => false
    case Dec(number) => Fix(CONTEXT, number).Some?
    case Container(_, _, elems) => forall i :: 0 <= i < |elems| ==> Sendable(elems[i])
    case Obj(_, _, fields) => forall i :: 0 <= i < |fields| ==> Sendable(fields[i])
    case _ => true
  }

  /** Serialising the value takes a hash before it writes a byte: an object without fields, alone or
      as the first field of an object. */
  predicate Hollow(v: Value)
    decreases v
  {
    v.Obj? && (v.fields == [] || Hollow(v.fields[0]))
  }

  predicate AllSendable(vs: seq<Value>) {
    forall i :: 0 <= i < |vs| ==> Sendable(vs[i])
  }

  /** The complex classes that writing the value registers, outermost first. */
  function Enrol(registry: Registry, v: Value): Registry
    decreases v, 1
  {
    match v
    case Container(_, _, elems) => EnrolEach(registry, elems)
    case Obj(cls, _, fields) => EnrolEach(registry[(cls.typeId, cls.SchemaIdentifier()) := cls], fields)
    case _ => registry
  }

  function EnrolEach(registry: Registry, vs: seq<Value>): Registry
    decreases vs, 0
  {
    if vs == [] then registry else EnrolEach(Enrol(registry, vs[0]), vs[1..])
  }

  lemma {:induction false} EnrolSnoc(registry: Registry, vs: seq<Value>, v: Value)
    ensures EnrolEach(registry, vs + [v]) == Enrol(EnrolEach(registry, vs), v)
    decreases |vs|
  {
    if vs == [] {
      assert [] + [v] == [v] && [v][1..] == [];
    } else {
      EnrolSnoc(Enrol(registry, vs[0]), vs[1..], v);
      assert (vs + [v])[1..] == vs[1..] + [v] && (vs + [v])[0] == vs[0];
    }
  }

  lemma {:induction false} EncodeEachSnoc(vs: seq<Value>, v: Value, compact: bool)
    ensures EncodeEach(vs + [v], compact) == EncodeEach(vs, compact) + [Encode(v, compact)]
    decreases |vs|
  {
    hide Encode;
    if vs == [] {
      assert [] + [v] == [v] && [v][1..] == [];
    } else {
      EncodeEachSnoc(vs[1..], v, compact);
      assert (vs + [v])[1..] == vs[1..] + [v] && (vs + [v])[0] == vs[0];
    }
  }

  lemma ClientPartsSnoc(vs: seq<Value>, v: Value, compact: bool)
    ensures ClientParts(vs + [v], compact) == ClientParts(vs, compact) + [ClientBytes(v, compact)]
  {
    assert WrittenEach(vs + [v]) == WrittenEach(vs) + [Written(v)];
    EncodeEachSnoc(WrittenEach(vs), Written(v), compact);
    hide Encode, EncodeEach, Written, WrittenEach;
  }

  lemma {:induction false} EncodeElemsSnoc(xs: seq<int>, x: int, width: nat)
    ensures EncodeElems(xs + [x], width) == EncodeElems(xs, width) + ToLE(x, width)
    decreases |xs|
  {
    if xs == [] {
      assert [] + [x] == [x] && [x][1..] == [];
    } else {
      EncodeElemsSnoc(xs[1..], x, width);
      assert (xs + [x])[1..] == xs[1..] + [x] && (xs + [x])[0] == xs[0];
    }
  }

  lemma ClientBytesBegin(v: Value, compact: bool)
    requires Writable(v)
    ensures ClientBytes(v, compact) != []
  {
    HeadIsCode(Written(v), compact);
  }

  /** One more element of a list, seen by every function that folds over the list. */
  lemma NextElement(registry: Registry, vs: seq<Value>, i: nat, compact: bool)
    requires i < |vs|
    ensures ClientParts(vs[..i + 1], compact) == ClientParts(vs[..i], compact) + [ClientBytes(vs[i], compact)]
    ensures Flatten(ClientParts(vs[..i + 1], compact)) == Flatten(ClientParts(vs[..i], compact)) + ClientBytes(vs[i], compact)
    ensures Offsets(ClientParts(vs[..i + 1], compact), HEADER_LENGTH)
         == Offsets(ClientParts(vs[..i], compact), HEADER_LENGTH) + [HEADER_LENGTH + |Flatten(ClientParts(vs[..i], compact))|]
    ensures EnrolEach(registry, vs[..i + 1]) == Enrol(EnrolEach(registry, vs[..i]), vs[i])
  {
    hide ClientBytes, ClientParts, Flatten, Offsets, Enrol, EnrolEach;
    assert vs[..i + 1] == vs[..i] + [vs[i]];
    ClientPartsSnoc(vs[..i], vs[i], compact);
    FlattenSnoc(ClientParts(vs[..i], compact), ClientBytes(vs[i], compact));
    OffsetsSnoc(ClientParts(vs[..i], compact), ClientBytes(vs[i], compact), HEADER_LENGTH);
    EnrolSnoc(registry, vs[..i], vs[i]);
  }

  /** The running maximum that the field loop adds to is the end of the fields written so far. */
  lemma {:induction false} LastOffsetIsMax(parts: seq<bytes>, start: nat)
    ensures MaxOf(Offsets(parts, start) + [start + |Flatten(parts)|]) == start + |Flatten(parts)|
    decreases |parts|
  {
    var all := Offsets(parts, start) + [start + |Flatten(parts)|];
    if parts == [] {
      assert all == [start] && all[1..] == [];
    } else {
      LastOffsetIsMax(parts[1..], start + |parts[0]|);
      assert all[1..] == Offsets(parts[1..], start + |parts[0]|) + [start + |parts[0]| + |Flatten(parts[1..])|];
    }
  }

  /** The bytes `w` have gone into the stream since its buffer was `data` and its position `pos`. */
  ghost predicate Wrote(s: BinaryStream, data: bytes, pos: nat, w: bytes)
    reads s
  {
    s.data == Overlay(data, pos, w) && s.pos == pos + |w| && !s.Stuck()
  }

  method Put(s: BinaryStream, b: bytes, ghost data: bytes, ghost pos: nat, ghost w: bytes)
    requires Wrote(s, data, pos, w)
    modifies s
    ensures Wrote(s, data, pos, w + b)
    ensures b != [] ==> s.data != []
  {
    var ok := s.Write(b);
    OverlayAppend(data, pos, w, b);
  }

  lemma WroteMore(s: BinaryStream, data: bytes, pos: nat, w: bytes, b: bytes)
    requires Wrote(s, Overlay(data, pos, w), pos + |w|, b)
    ensures Wrote(s, data, pos, w + b) && (b != [] ==> s.data != [])
  {
    OverlayAppend(data, pos, w, b);
  }

  /** The permutation loop of `UUIDObject.from_python_not_null`. */
  method PermutedUuid(octets: bytes) returns (b: bytes)
    requires |octets| == 16
    ensures b == PermuteUuid(octets)
  {
    b := seq(16, _ => 0);
    for i := 0 to 16
      invariant |b| == 16
      invariant forall j :: 0 <= j < i ==> b[UUID_BYTE_ORDER[j]] == octets[j]
    {
      b := b[UUID_BYTE_ORDER[i] := octets[i]];
    }
    assert b[7] == octets[0] && b[6] == octets[1] && b[5] == octets[2] && b[4] == octets[3];
    assert b[3] == octets[4] && b[2] == octets[5] && b[1] == octets[6] && b[0] == octets[7];
    assert b[15] == octets[8] && b[14] == octets[9] && b[13] == octets[10] && b[12] == octets[11];
    assert b[11] == octets[12] && b[10] == octets[13] && b[9] == octets[14] && b[8] == octets[15];
  }

  // ---- flat values

  method WriteFlat(s: BinaryStream, v: Value)
    requires Writable(v) && !v.Container? && !v.Obj? && !v.Wrapped? && !s.Stuck()
    modifies s
    requires v.Dec? ==> Fix(CONTEXT, v.number).Some?
    ensures Wrote(s, old(s.data), old(s.pos), EncodeFlat(Written(v)))
  {
    hide Overlay, EncodeFlat, Writable, Wrote, KindOf, Written, Fix;
    if v.PrimArray? {
      ArrayShape(v);
      WritePrimArray(s, v.code, v.xs);
    } else {
      var structure := BuildStructure(v);
      OverlayNothing(s.data, s.pos);
      WroteNothing(s);
      Put(s, structure, s.data, s.pos, []);
      assert [] + structure == structure;
    }
  }

  lemma WroteNothing(s: BinaryStream)
    requires !s.Stuck()
    ensures Wrote(s, s.data, s.pos, [])
  {}

  lemma ArrayShape(v: Value)
    requires v.PrimArray? && Writable(v)
    ensures KindOf(v.code).PrimArrayKind?
    ensures EncodeFlat(Written(v)) == [v.code] + ToLE(|v.xs|, 4) + EncodeElems(v.xs, KindOf(v.code).elem.width)
  {
    hide KindOf, EncodeElems;
  }

  /** The `ctypes` structure a flat value fills in before a single write. */
  method BuildStructure(v: Value) returns (b: bytes)
    requires Writable(v) && !v.Container? && !v.Obj? && !v.Wrapped? && !v.PrimArray?
    requires v.Dec? ==> Fix(CONTEXT, v.number).Some?
    ensures b == EncodeFlat(Written(v))
  {
    hide KindOf, ToLE, PermuteUuid, Magnitude, Fix;
    match v
    case Null => b := [TC_NULL];
    case Prim(code, x) => b := [code] + ToLE(x, KindOf(code).elem.width);
    case Pair(code, x, y) => b := [code] + ToLE(x, KindOf(code).width1) + ToLE(y, KindOf(code).width2);
    case Uuid(octets) =>
      var value := PermutedUuid(octets);
      b := [TC_UUID] + value;
    case Str(utf8) => b := [TC_STRING] + ToLE(|utf8|, 4) + utf8;
    case Dec(number) =>
      var n := Fix(CONTEXT, number).value;
      var digits := EncodeMagnitude(n.negative, n.coefficient);
      b := [TC_DECIMAL] + ToLE(-n.exponent, 4) + ToLE(|digits|, 4) + digits;
  }

  /** Type code, length, then the elements one by one. */
  method WritePrimArray(s: BinaryStream, code: byte, xs: seq<int>)
    requires KindOf(code).PrimArrayKind? && !s.Stuck()
    modifies s
    ensures Wrote(s, old(s.data), old(s.pos), [code] + ToLE(|xs|, 4) + EncodeElems(xs, KindOf(code).elem.width))
  {
    hide KindOf, ToLE, EncodeElems;
    ghost var data, pos := s.data, s.pos;
    var width := KindOf(code).elem.width;
    OverlayNothing(data, pos);
    Put(s, [code], data, pos, []);
    Put(s, ToLE(|xs|, 4), data, pos, [] + [code]);
    ghost var header := [code] + ToLE(|xs|, 4);
    assert [] + [code] + ToLE(|xs|, 4) == header + EncodeElems(xs[..0], width) by { NoElems(width); }
    for i := 0 to |xs|
      invariant Wrote(s, data, pos, header + EncodeElems(xs[..i], width))
    {
      Put(s, ToLE(xs[i], width), data, pos, header + EncodeElems(xs[..i], width));
      EncodeElemsSnoc(xs[..i], xs[i], width);
      assert xs[..i + 1] == xs[..i] + [xs[i]];
      assert header + EncodeElems(xs[..i], width) + ToLE(xs[i], width) == header + EncodeElems(xs[..i + 1], width);
    }
    assert xs[..|xs|] == xs;
  }

  lemma NoElems(width: nat)
    ensures EncodeElems([], width) == []
  {}

  // ---- nested values

  /** Serialises a value at the stream's position. It fails exactly if the value holds wrapped data or a decimal
      that overflows, or if a hash is due while the buffer is still empty. */
  method FromPython(s: BinaryStream, v: Value) returns (r: Result<()>)
    requires Writable(v) && !s.Stuck()
    modifies s, s.client
    ensures s.client.style == old(s.client.style)
    ensures r.Ok? <==> Sendable(v) && !(old(s.data) == [] && Hollow(v))
    ensures r.Ok? ==> Wrote(s, old(s.data), old(s.pos), ClientBytes(v, old(s.client.CompactFooter())))
    ensures r.Ok? ==> s.client.registry == Enrol(old(s.client.registry), v)
    decreases v, 1
  {
    hide KindOf, EncodeFlat, ContainerHeader, Flatten, ObjectBytes, Writable, Wrote, ClientParts, EnrolEach;
    match v
    case Container(_, _, _) => r := WriteContainer(s, v);
    case Obj(_, _, _) =>
      s.client.registry := s.client.registry[(v.cls.typeId, v.cls.SchemaIdentifier()) := v.cls];
      var h;
      r, h := WriteObject(s, v);
    case Wrapped(_, _) => r := Err(NotSendable);
    case Dec(number) =>
      if Fix(CONTEXT, number).None? { return Err(DecimalSignal); }
      WriteFlat(s, v);
      r := Ok(());
    case _ =>
      WriteFlat(s, v);
      r := Ok(());
  }

  method WriteContainerHeader(s: BinaryStream, code: byte, h: HeaderStyle, meta: int, count: nat)
    requires !s.Stuck()
    modifies s
    ensures Wrote(s, old(s.data), old(s.pos), ContainerHeader(code, h, meta, count)) && s.data != []
  {
    hide ToLE, Overlay;
    ghost var data, pos := s.data, s.pos;
    OverlayNothing(data, pos);
    Put(s, [code], data, pos, []);
    assert [] + [code] == [code];
    match h
    case CountOnly =>
      Put(s, ToLE(count, 4), data, pos, [code]);
    case TypeIdCount =>
      Put(s, ToLE(meta, 4), data, pos, [code]);
      Put(s, ToLE(count, 4), data, pos, [code] + ToLE(meta, 4));
    case CountHint =>
      Put(s, ToLE(count, 4), data, pos, [code]);
      Put(s, ToLE(meta, 1), data, pos, [code] + ToLE(count, 4));
  }

  method WriteContainer(s: BinaryStream, v: Value) returns (r: Result<()>)
    requires v.Container? && Writable(v) && !s.Stuck()
    modifies s, s.client
    ensures s.client.style == old(s.client.style)
    ensures r.Ok? <==> Sendable(v)
    ensures r.Ok? ==> Wrote(s, old(s.data), old(s.pos), ClientBytes(v, old(s.client.CompactFooter())))
    ensures r.Ok? ==> s.client.registry == EnrolEach(old(s.client.registry), v.elems)
    decreases v, 0
  {
    hide KindOf, ClientBytes, ClientParts, Flatten, EnrolEach, Writable, Sendable, Overlay, ContainerHeader,
         AllSendable, Progress, Wrote;
    ghost var data, pos, compact := s.data, s.pos, s.client.CompactFooter();
    ContainerParts(v, compact);
    var k := KindOf(v.code);
    var count := |v.elems| / k.perEntry;
    ghost var registry := s.client.registry;
    WriteContainerHeader(s, v.code, k.header, v.meta, count);
    WroteFacts(s, data, pos, ContainerHeader(v.code, k.header, v.meta, count));
    r := WriteElems(s, v.elems);
    if r.Ok? {
      ProgressAfter(s, data, pos, ContainerHeader(v.code, k.header, v.meta, count), registry, compact, v.elems);
    }
  }

  /** The values `vs` have been written since the stream's buffer was `data` and its position `pos`. */
  ghost predicate Progress(s: BinaryStream, data: bytes, pos: nat, registry: Registry, compact: bool, vs: seq<Value>)
    reads s, s.client
  {
    AllSendable(vs) && Wrote(s, data, pos, Flatten(ClientParts(vs, compact)))
    && s.client.registry == EnrolEach(registry, vs) && compact == s.client.CompactFooter()
  }

  method WriteNext(s: BinaryStream, vs: seq<Value>, i: nat,
                   ghost data: bytes, ghost pos: nat, ghost registry: Registry, ghost compact: bool) returns (r: Result<()>)
    requires i < |vs| && Writable(vs[i]) && Progress(s, data, pos, registry, compact, vs[..i])
    modifies s, s.client
    ensures s.client.style == old(s.client.style)
    ensures r.Ok? <==> Sendable(vs[i]) && !(old(s.data) == [] && Hollow(vs[i]))
    ensures r.Err? && !Sendable(vs[i]) ==> !AllSendable(vs)
    ensures r.Ok? ==> Progress(s, data, pos, registry, compact, vs[..i + 1])
    ensures r.Ok? ==> s.data != [] && s.pos == old(s.pos) + |ClientBytes(vs[i], compact)|
    decreases vs[i], 2
  {
    hide ClientBytes, ClientParts, Flatten, Offsets, Enrol, EnrolEach, Writable, Sendable, Hollow, Overlay, AllSendable;
    r := FromPython(s, vs[i]);
    if r.Ok? {
      ClientBytesBegin(vs[i], compact);
      OverlayAppend(data, pos, Flatten(ClientParts(vs[..i], compact)), ClientBytes(vs[i], compact));
      NextElement(registry, vs, i, compact);
      SendableStep(vs, i);
    } else if !Sendable(vs[i]) {
      UnsendableElement(vs, i);
    }
  }

  lemma ProgressStart(s: BinaryStream, vs: seq<Value>)
    requires !s.Stuck()
    ensures Progress(s, s.data, s.pos, s.client.registry, s.client.CompactFooter(), vs[..0])
  {
    OverlayNothing(s.data, s.pos);
    NothingYet(s.client.registry, vs, s.client.CompactFooter());
  }

  /** The element loop: `infer_from_python` on each. */
  method WriteElems(s: BinaryStream, elems: seq<Value>) returns (r: Result<()>)
    requires (forall i :: 0 <= i < |elems| ==> Writable(elems[i])) && !s.Stuck() && s.data != []
    modifies s, s.client
    ensures s.client.style == old(s.client.style)
    ensures r.Ok? <==> AllSendable(elems)
    ensures r.Ok? ==> Progress(s, old(s.data), old(s.pos), old(s.client.registry), old(s.client.CompactFooter()), elems)
    decreases elems, 0
  {
    hide Progress, Writable, Sendable, AllSendable, Hollow, ClientBytes, ClientParts;
    ghost var data, pos, registry, compact := s.data, s.pos, s.client.registry, s.client.CompactFooter();
    ProgressStart(s, elems);
    for i := 0 to |elems|
      invariant s.client.style == old(s.client.style) && s.data != []
      invariant Progress(s, data, pos, registry, compact, elems[..i])
    {
      r := WriteNext(s, elems, i, data, pos, registry, compact);
      if r.Err? { return; }
    }
    assert elems[..|elems|] == elems;
    ProgressSendable(s, data, pos, registry, compact, elems);
    r := Ok(());
  }

  lemma WroteFacts(s: BinaryStream, data: bytes, pos: nat, w: bytes)
    requires Wrote(s, data, pos, w)
    ensures s.data == Overlay(data, pos, w) && s.pos == pos + |w| && !s.Stuck()
  {}

  lemma ProgressAfter(s: BinaryStream, data: bytes, pos: nat, w: bytes, registry: Registry, compact: bool, vs: seq<Value>)
    requires Progress(s, Overlay(data, pos, w), pos + |w|, registry, compact, vs)
    ensures Wrote(s, data, pos, w + Flatten(ClientParts(vs, compact))) && s.client.registry == EnrolEach(registry, vs)
    ensures AllSendable(vs)
  {
    OverlayAppend(data, pos, w, Flatten(ClientParts(vs, compact)));
    hide Overlay, ClientParts, Flatten, EnrolEach, AllSendable;
  }

  lemma ProgressSendable(s: BinaryStream, data: bytes, pos: nat, registry: Registry, compact: bool, vs: seq<Value>)
    requires Progress(s, data, pos, registry, compact, vs)
    ensures AllSendable(vs)
  {}

  lemma SendableStep(vs: seq<Value>, i: nat)
    requires i < |vs| && AllSendable(vs[..i]) && Sendable(vs[i])
    ensures AllSendable(vs[..i + 1])
  {
    hide Sendable;
    assert forall j :: 0 <= j < i ==> vs[..i][j] == vs[j];
  }

  lemma UnsendableElement(vs: seq<Value>, i: nat)
    requires i < |vs| && !Sendable(vs[i])
    ensures !AllSendable(vs)
  {}

  lemma NothingYet(registry: Registry, vs: seq<Value>, compact: bool)
    ensures vs[..0] == [] && ClientParts([], compact) == [] && Flatten([]) == []
    ensures EnrolEach(registry, []) == registry && AllSendable([])
  {}

  lemma ContainerParts(v: Value, compact: bool)
    requires v.Container? && Writable(v)
    ensures var k := KindOf(v.code);
      k.ContainerKind? && ClientBytes(v, compact) == ContainerHeader(v.code, k.header, v.meta, |v.elems| / k.perEntry)
                                                + Flatten(ClientParts(v.elems, compact))
      && MetaFits(k.header, v.meta)
    ensures forall i :: 0 <= i < |v.elems| ==> Writable(v.elems[i])
    ensures Sendable(v) <==> AllSendable(v.elems)
  {
    WrittenShape(v);
    hide KindOf, ContainerHeader, Written, WrittenEach;
  }

  /** Reserve the header, write the fields and note their offsets, then patch the header and append the footer. */
  method WriteObject(s: BinaryStream, v: Value) returns (r: Result<()>, hash: int)
    requires v.Obj? && Writable(v) && !s.Stuck()
    modifies s, s.client
    ensures s.client.style == old(s.client.style)
    ensures r.Ok? <==> Sendable(v) && !(old(s.data) == [] && Hollow(v))
    ensures r.Ok? ==> Wrote(s, old(s.data), old(s.pos), ClientBytes(v, old(s.client.CompactFooter())))
    ensures r.Ok? ==> s.client.registry == EnrolEach(old(s.client.registry), v.fields)
    ensures r.Ok? ==> hash == BytesHash(Flatten(ClientParts(v.fields, old(s.client.CompactFooter()))))
    decreases v, 0
  {
    hash := 0;
    hide KindOf, ClientBytes, ClientParts, Flatten, Offsets, EnrolEach, Writable, Sendable, Hollow, Overlay,
         AllSendable, BytesHash;
    var compact := s.client.CompactFooter();
    ghost var data := s.data;
    ObjectPartsOf(v, compact);
    var initialPos := s.Tell();
    s.Seek(initialPos + HEADER_LENGTH);
    var offsets;
    r, offsets := WriteFields(s, v.fields);
    if r.Err? { return; }
    r, hash := WriteFooter(s, v, compact, offsets, initialPos, data, Flatten(ClientParts(v.fields, compact)));
  }

  /** The field loop: each offset is the largest so far plus the bytes the field took. */
  method WriteFields(s: BinaryStream, fields: seq<Value>) returns (r: Result<()>, offsets: seq<nat>)
    requires (forall i :: 0 <= i < |fields| ==> Writable(fields[i])) && !s.Stuck()
    modifies s, s.client
    ensures s.client.style == old(s.client.style)
    ensures r.Ok? <==> AllSendable(fields) && !(fields != [] && old(s.data) == [] && Hollow(fields[0]))
    ensures r.Ok? ==> Progress(s, old(s.data), old(s.pos), old(s.client.registry), old(s.client.CompactFooter()), fields)
    ensures r.Ok? ==> offsets == EndsAfter(fields, old(s.client.CompactFooter()))
    ensures r.Ok? ==> (s.data == [] <==> fields == [] && old(s.data) == [])
    decreases fields, 0
  {
    hide Progress, Writable, Sendable, AllSendable, Hollow, ClientBytes, ClientParts, MaxOf, EndsAfter;
    ghost var data, pos, registry, compact := s.data, s.pos, s.client.registry, s.client.CompactFooter();
    ProgressStart(s, fields);
    NoOffsets(compact);
    assert fields[..0] == [];
    offsets := [HEADER_LENGTH];
    for i := 0 to |fields|
      invariant s.client.style == old(s.client.style)
      invariant Progress(s, data, pos, registry, compact, fields[..i])
      invariant offsets == EndsAfter(fields[..i], compact)
      invariant i == 0 ==> s.data == data
      invariant i > 0 ==> s.data != [] && !(data == [] && Hollow(fields[0]))
    {
      var fieldStart := s.Tell();
      r := WriteNext(s, fields, i, data, pos, registry, compact);
      if r.Err? { return; }
      offsets := offsets + [MaxOf(offsets) + s.pos - fieldStart];
      NextOffset(fields, i, compact);
    }
    assert fields[..|fields|] == fields;
    ProgressSendable(s, data, pos, registry, compact, fields);
    r := Ok(());
  }

  /** The offsets of the fields and, last, of the end of the fields. */
  function EndsAfter(fields: seq<Value>, compact: bool): (o: seq<nat>) {
    var parts := ClientParts(fields, compact);
    Offsets(parts, HEADER_LENGTH) + [HEADER_LENGTH + |Flatten(parts)|]
  }

  lemma NextOffset(fields: seq<Value>, i: nat, compact: bool)
    requires i < |fields|
    ensures EndsAfter(fields[..i + 1], compact)
         == EndsAfter(fields[..i], compact) + [MaxOf(EndsAfter(fields[..i], compact)) + |ClientBytes(fields[i], compact)|]
  {
    hide ClientBytes, ClientParts, Flatten, Offsets, MaxOf;
    NextElement(map[], fields, i, compact);
    LastOffsetIsMax(ClientParts(fields[..i], compact), HEADER_LENGTH);
  }

  lemma NoOffsets(compact: bool)
    ensures EndsAfter([], compact) == [HEADER_LENGTH]
  {}

  lemma ObjectPartsOf(v: Value, compact: bool)
    requires v.Obj? && Writable(v)
    ensures |v.fields| == |v.cls.schema|
    ensures forall i :: 0 <= i < |v.fields| ==> Writable(v.fields[i])
    ensures Sendable(v) <==> AllSendable(v.fields)
    ensures Hollow(v) <==> v.fields == [] || Hollow(v.fields[0])
  {
    ObjectIsWritable(v);
    hide Writable;
  }

  /** The footer loop: one entry per field. */
  method FooterBytes(cls: ClassInfo, flags: nat, offsets: seq<nat>) returns (schema: bytes)
    requires |offsets| == |cls.schema|
    ensures schema == Flatten(FooterEntries(flags, cls.FieldIds(), offsets))
  {
    hide FooterEntry, StringHash, Flatten;
    ghost var entries := FooterEntries(flags, cls.FieldIds(), offsets);
    schema := [];
    assert entries[..0] == [] && Flatten([]) == [] by { NoParts(); }
    for i := 0 to |offsets|
      invariant schema == Flatten(entries[..i])
    {
      schema := schema + FooterEntry(flags, StringHash(cls.schema[i].name), offsets[i]);
      assert entries[..i + 1] == entries[..i] + [entries[i]];
      FlattenSnoc(entries[..i], entries[i]);
    }
    assert entries[..|offsets|] == entries;
  }

  lemma ClientObject(v: Value, compact: bool)
    requires v.Obj? && |v.fields| == |v.cls.schema|
    ensures ClientBytes(v, compact) == ObjectBytes(v.cls, v.version, compact, ClientParts(v.fields, compact))
  {
    WrittenShape(v);
    hide Written, WrittenEach, EncodeEach;
    ObjectEncoding(Written(v), compact);
    hide Encode;
  }

  lemma NoParts()
    ensures Flatten([]) == []
  {}

  /** `write_footer`: the hash is taken over the field bytes in the stream, then header and footer are written. */
  method WriteFooter(s: BinaryStream, v: Value, compact: bool, allOffsets: seq<nat>, initialPos: nat,
                     ghost data: bytes, ghost body: bytes) returns (r: Result<()>, hash: int)
    requires v.Obj? && |v.fields| == |v.cls.schema| && body == Flatten(ClientParts(v.fields, compact))
    requires allOffsets == EndsAfter(v.fields, compact)
    requires Wrote(s, data, initialPos + HEADER_LENGTH, body)
    modifies s
    ensures r.Ok? <==> old(s.data) != []
    ensures r.Ok? ==> Wrote(s, data, initialPos, ClientBytes(v, compact))
    ensures hash == BytesHash(body)
  {
    hide ToLE, ClientBytes, ClientParts, Flatten, Offsets, ObjectFlags, MaxOf, ObjectHeader, FooterEntries, BytesHash;
    var offsets := allOffsets[..|allOffsets| - 1];
    var flags := ObjectFlags(compact, offsets);
    var schema := FooterBytes(v.cls, flags, offsets);
    var end := s.Tell();
    var fieldsLen := end - initialPos - HEADER_LENGTH;
    var schemaOffset := fieldsLen + HEADER_LENGTH;
    var length := schemaOffset + |schema|;
    hash := s.Hashcode(initialPos + HEADER_LENGTH, fieldsLen);
    OverlaySlice(data, initialPos + HEADER_LENGTH, body);
    var header := ObjectHeader(v.cls, v.version, flags, hash, length, schemaOffset);
    s.Seek(initialPos);
    var ok := s.Write(header);
    if !ok { return Err(BufferExported), hash; }
    s.Seek(initialPos + schemaOffset);
    ok := s.Write(schema);
    OverlayPatch(data, initialPos, header, body, schema);
    ClientObject(v, compact);
    assert ClientBytes(v, compact) == header + body + schema by {
      ghost var f, h, b, t := ObjectParts(v.cls, v.version, compact, ClientParts(v.fields, compact));
    }
    r := Ok(());
  }
}
