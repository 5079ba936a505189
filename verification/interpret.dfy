/** The second reading phase: `to_python` interprets the bytes under a layout,
    and what a reader gets back for a written value. */
module Interpret {
  import opened Bytes
  import opened Values
  import opened Layouts
  import opened DecimalCodec
  import opened Decimals

  /** `read_ctype` in the backward direction: the last `size` bytes before the position. */
  function ReadBackward(buf: bytes, pos: nat, size: nat): Result<bytes>
    requires size <= pos
  {
    if pos > |buf| then Err(BufferTooSmall) else Ok(buf[pos - size..pos])
  }

  function DecodeElem(e: Elem, b: bytes): Result<int> {
    match e.style
    case Signed => Ok(FromSignedLE(b))
    case Pattern => Ok(FromLE(b))
    case RawByte => Ok(FromLE(b))
    case CodeUnit => if FromSignedLE(b) < 0 then Err(Overflow) else Ok(FromSignedLE(b))
    case Flag => Ok(if FromLE(b) != 0 then 1 else 0)
  }

  function DecodeElems(e: Elem, b: bytes): Result<seq<int>>
    requires e.width > 0
    decreases |b|
  {
    if |b| < e.width then Ok([])
    else
      var x := DecodeElem(e, b[..e.width]);
      var rest := DecodeElems(e, b[e.width..]);
      if x.Err? then Err(x.error) else if rest.Err? then Err(rest.error) else Ok([x.value] + rest.value)
  }

  /** The value of a `c_char` array stops at its first NUL. */
  function UpToNul(b: bytes): (r: bytes)
    ensures r <= b && 0 !in r && (|r| < |b| ==> b[|r|] == 0)
    ensures r == b <==> 0 !in b
  {
    if b == [] || b[0] == 0 then [] else assert b == [b[0]] + b[1..]; [b[0]] + UpToNul(b[1..])
  }

  function ReadFlat(code: byte, bs: bytes): Result<Value> {
    match KindOf(code)
    case PrimKind(e) =>
      if |bs| != 1 + e.width then Err(WrongLayout)
      else var x := DecodeElem(e, bs[1..]); if x.Err? then Err(x.error) else Ok(Prim(code, x.value))
    case PairKind(w1, w2) =>
      if |bs| != 1 + w1 + w2 then Err(WrongLayout)
      else Ok(Pair(code, FromSignedLE(bs[1..1 + w1]), FromSignedLE(bs[1 + w1..])))
    case UuidKind => if |bs| != 17 then Err(WrongLayout) else Ok(Uuid(PermuteUuid(bs[1..])))
    case StringKind =>
      if |bs| < 5 then Err(WrongLayout)
      else Ok(Str(if FromSignedLE(bs[1..5]) > 0 then UpToNul(bs[5..]) else []))
    case DecimalKind =>
      if |bs| < 9 then Err(WrongLayout)
      else if |bs| == 9 then Err(EmptyDecimal)
      else
        var d := DecodeMagnitude(bs[9..]);
        var number := ReadNumber(CONTEXT, d.0, d.1, FromSignedLE(bs[1..5]));
        if number.None? then Err(DecimalSignal) else Ok(Dec(number.value))
    case PrimArrayKind(e) =>
      if |bs| < 5 || e.width == 0 then Err(WrongLayout)
      else var xs := DecodeElems(e, bs[5..]); if xs.Err? then Err(xs.error) else Ok(PrimArray(code, xs.value))
    case WrappedKind =>
      if |bs| < 9 then Err(WrongLayout)
      else Ok(Wrapped(bs[5..|bs| - 4], FromSignedLE(bs[|bs| - 4..])))
    case _ => Err(WrongLayout)
  }

  /** Values that Python accepts as dictionary keys: lists and generic objects are not hashable. */
  predicate Hashable(v: Value) {
    !v.Container? && !v.Obj? && (v.PrimArray? ==> v.code == TC_BYTE_ARRAY)
  }

  /** The value stored under `k`, or where it would go. */
  function KeyIndex(kv: seq<Value>, k: Value): (i: nat)
    requires |kv| % 2 == 0
    ensures i <= |kv| && i % 2 == 0
    ensures i < |kv| ==> kv[i] == k
    ensures i == |kv| ==> forall j :: 0 <= j < |kv| && j % 2 == 0 ==> kv[j] != k
  {
    if kv == [] then 0
    else if kv[0] == k then 0
    else 2 + KeyIndex(kv[2..], k)
  }

  /** `result[k] = v` on an insertion-ordered dictionary. */
  function DictPut(kv: seq<Value>, k: Value, v: Value): (r: seq<Value>)
    requires |kv| % 2 == 0
    ensures |r| % 2 == 0
  {
    var i := KeyIndex(kv, k);
    if i < |kv| then kv[i + 1 := v] else kv + [k, v]
  }

  /** The dictionary built by assigning the pairs in order; a key must be hashable. */
  function DictOf(pairs: seq<Value>): (r: Result<seq<Value>>)
    requires |pairs| % 2 == 0
    ensures r.Ok? ==> |r.value| % 2 == 0
  {
    if pairs == [] then Ok([])
    else
      var n := |pairs| - 2;
      var before := DictOf(pairs[..n]);
      if before.Err? then before
      else if !Hashable(pairs[n]) then Err(UnhashableKey)
      else Ok(DictPut(before.value, pairs[n], pairs[n + 1]))
  }

  /** A container's elements as its Python value keeps them. */
  function Collect(perEntry: nat, elems: seq<Value>): Result<seq<Value>> {
    if perEntry == 2 && |elems| % 2 == 0 then DictOf(elems) else Ok(elems)
  }

  function MetaOf(h: HeaderStyle, header: bytes): int
    requires |header| == HeaderSize(h)
  {
    match h
    case CountOnly => 0
    case TypeIdCount => FromSignedLE(header[1..5])
    case CountHint => FromSignedLE(header[5..6])
  }

  /** `to_python` of a class on a structure: `layout` over the bytes `bs`. */
  function Read(registry: Registry, cls: Class, layout: Layout, bs: bytes): Result<Value>
    requires |bs| == Size(layout)
    decreases layout, 2
  {
    match cls
    case Any => if bs == [] then Err(WrongLayout) else ReadAs(registry, bs[0], layout, bs)
    case Typed(code) => ReadAs(registry, code, layout, bs)
  }

  function ReadAs(registry: Registry, code: byte, layout: Layout, bs: bytes): Result<Value>
    requires |bs| == Size(layout)
    decreases layout, 1
  {
    var k := KindOf(code);
    if k == NullKind then Ok(Null)
    else if bs == [] then Err(WrongLayout)
    else if bs[0] == TC_NULL then Ok(Null)
    else match layout
    case NullL => Err(WrongLayout)
    case FlatL(_) => ReadFlat(code, bs)
    case SeqL(header, elems) =>
      if !k.ContainerKind? || header != HeaderSize(k.header) then Err(WrongLayout)
      else
        var count := FromSignedLE(bs[CountAt(k.header)..CountAt(k.header) + 4]);
        var vs := if count < 0 then Ok([])
                  else if |elems| != count * k.perEntry then Err(WrongLayout)
                  else ReadEach(registry, Repeat(k.element, |elems|), elems, bs[header..]);
        if vs.Err? then Err(vs.error)
        else
          var r := Collect(k.perEntry, vs.value);
          if r.Err? then Err(r.error)
          else Ok(Container(code, MetaOf(k.header, bs[..header]), r.value))
    case ObjectL(fields, footer) =>
      if k != ObjectKind then Err(WrongLayout)
      else
        var h := DecodeHeader(bs[..HEADER_LENGTH]);
        var cls := Lookup(registry, h.typeId, h.schemaId);
        if cls.Err? then Err(cls.error)
        else if |cls.value.schema| != |fields| then Err(WrongLayout)
        else
          var end := HEADER_LENGTH + SizeAll(fields);
          var vs := ReadEach(registry, FieldClasses(cls.value), fields, bs[HEADER_LENGTH..end]);
          if vs.Err? then Err(vs.error) else Ok(Obj(cls.value, h.version, vs.value))
  }

  function ReadEach(registry: Registry, classes: seq<Class>, layouts: seq<Layout>, bs: bytes):
    (r: Result<seq<Value>>)
    requires |classes| == |layouts| && |bs| == SizeAll(layouts)
    ensures r.Ok? ==> |r.value| == |layouts|
    decreases layouts, 0
  {
    if layouts == [] then Ok([])
    else
      var n := Size(layouts[0]);
      var first := Read(registry, classes[0], layouts[0], bs[..n]);
      if first.Err? then Err(first.error)
      else
        var rest := ReadEach(registry, classes[1..], layouts[1..], bs[n..]);
        if rest.Err? then Err(rest.error) else Ok([first.value] + rest.value)
  }

  /** Both phases: parse at the cursor, read the structure backward, interpret it. */
  function Decode(registry: Registry, buf: bytes, cls: Class, cur: Cursor): Result<(Value, Cursor)> {
    var p := Parse(registry, buf, cls, cur);
    if p.Err? then Err(p.error)
    else
      var (layout, end) := p.value;
      var bs := ReadBackward(buf, end.pos, Size(layout));
      if bs.Err? then Err(bs.error)
      else
        var v := Read(registry, cls, layout, bs.value);
        if v.Err? then Err(v.error) else Ok((v.value, end))
  }

  // ---- what a reader gets for a written value

  function ObservedElem(e: Elem, x: int): Result<int> {
    match e.style
    case Signed => Ok(WrapSigned(x, e.width))
    case Pattern => Ok(x)
    case RawByte => Ok(x % 256)
    case CodeUnit => if x < 0x8000 then Ok(x) else Err(Overflow)
    case Flag => Ok(x)
  }

  function ObservedElems(e: Elem, xs: seq<int>): Result<seq<int>> {
    if xs == [] then Ok([])
    else
      var x := ObservedElem(e, xs[0]);
      var rest := ObservedElems(e, xs[1..]);
      if x.Err? then Err(x.error) else if rest.Err? then Err(rest.error) else Ok([x.value] + rest.value)
  }

  function ObservedFlat(v: Value): Result<Value>
    requires !v.Container? && !v.Obj?
  {
    match v
    case Prim(code, x) =>
      if KindOf(code).PrimKind? then
        var y := ObservedElem(KindOf(code).elem, x);
        if y.Err? then Err(y.error) else Ok(Prim(code, y.value))
      else Err(WrongLayout)
    case Pair(code, a, b) =>
      if KindOf(code).PairKind? then
        Ok(Pair(code, WrapSigned(a, KindOf(code).width1), WrapSigned(b, KindOf(code).width2)))
      else Err(WrongLayout)
    case Str(utf8) => Ok(Str(UpToNul(utf8)))
    case Dec(number) =>
      var read := ReadNumber(CONTEXT, number.negative, number.coefficient, WrapSigned(-number.exponent, 4));
      if read.None? then Err(DecimalSignal) else Ok(Dec(read.value))
    case PrimArray(code, xs) =>
      if KindOf(code).PrimArrayKind? then
        var ys := ObservedElems(KindOf(code).elem, xs);
        if ys.Err? then Err(ys.error) else Ok(PrimArray(code, ys.value))
      else Err(WrongLayout)
    case _ => Ok(v)
  }

  /** Structurally what comes back: wrapped integers, strings cut at NUL, decimals rounded, dictionaries rebuilt. */
  function Observed(v: Value): Result<Value>
    decreases v, 1
  {
    match v
    case Container(code, meta, elems) =>
      if !KindOf(code).ContainerKind? then Err(WrongLayout)
      else
        var vs := ObservedEach(elems);
        if vs.Err? then Err(vs.error)
        else
          var r := Collect(KindOf(code).perEntry, vs.value);
          if r.Err? then Err(r.error) else Ok(Container(code, meta, r.value))
    case Obj(cls, version, fields) =>
      var vs := ObservedEach(fields);
      if vs.Err? then Err(vs.error) else Ok(Obj(cls, WrapSigned(version, 1), vs.value))
    case _ => ObservedFlat(v)
  }

  function ObservedEach(vs: seq<Value>): (r: Result<seq<Value>>)
    ensures r.Ok? ==> |r.value| == |vs|
    decreases vs, 0
  {
    if vs == [] then Ok([])
    else
      var first := Observed(vs[0]);
      if first.Err? then Err(first.error)
      else
        var rest := ObservedEach(vs[1..]);
        if rest.Err? then Err(rest.error) else Ok([first.value] + rest.value)
  }

  /** Who writes the value: a client normalises its decimals, a server sends them as they are. */
  datatype Origin = Client | Server

  function OnWire(v: Value, origin: Origin): Value {
    if origin.Client? then Written(v) else v
  }

  function OnWireEach(vs: seq<Value>, origin: Origin): (ws: seq<Value>)
    ensures |ws| == |vs| && forall i :: 0 <= i < |vs| ==> ws[i] == OnWire(vs[i], origin)
  {
    if origin.Client? then WrittenEach(vs) else vs
  }

  /** Nothing in the value is wrapped, cut, rounded, refused or overwritten on its way to a reader. */
  ghost predicate Clean(v: Value, origin: Origin)
    decreases v
  {
    match v
    case Null => true
    case Prim(code, x) => KindOf(code).PrimKind? && CleanElem(KindOf(code).elem, x)
    case Pair(code, a, b) =>
      KindOf(code).PairKind? && FitsSigned(a, KindOf(code).width1) && FitsSigned(b, KindOf(code).width2)
    case Uuid(_) => true
    case Str(utf8) => 0 !in utf8
    case Dec(number) => CleanNumber(if origin.Client? then Strip(number) else number)
    case PrimArray(code, xs) =>
      KindOf(code).PrimArrayKind? && forall i :: 0 <= i < |xs| ==> CleanElem(KindOf(code).elem, xs[i])
    case Wrapped(_, _) => true
    case Container(code, _, elems) =>
      (forall i :: 0 <= i < |elems| ==> Clean(elems[i], origin))
      && (KindOf(code).ContainerKind? && KindOf(code).perEntry == 2 ==>
            (forall i :: 0 <= i < |elems| && i % 2 == 0 ==> Hashable(elems[i])) && DistinctKeys(PlainEach(elems)))
    case Obj(_, version, fields) =>
      FitsSigned(version, 1) && forall i :: 0 <= i < |fields| ==> Clean(fields[i], origin)
  }

  /** A number on the wire that the current context holds without rounding, and whose scale fits its field and can be
      turned into a power of ten. A zero may have any scale that is readable once wrapped. */
  predicate CleanNumber(d: Decimal) {
    ScaleReadable(CONTEXT, WrapSigned(-d.exponent, 4))
    && (d.coefficient == 0 || (FitsSigned(-d.exponent, 4) && Fits(CONTEXT, Strip(d))))
  }

  predicate CleanElem(e: Elem, x: int) {
    match e.style
    case Signed => FitsSigned(x, e.width)
    case Pattern => true
    case RawByte => 0 <= x < 256
    case CodeUnit => x < 0x8000
    case Flag => true
  }

  /** The layout a written value is parsed with. */
  function LayoutOf(v: Value, compact: bool): Layout
    decreases v, 1
  {
    match v
    case Null => NullL
    case Container(code, _, elems) =>
      SeqL(if KindOf(code).ContainerKind? then HeaderSize(KindOf(code).header) else 0, LayoutsOf(elems, compact))
    case Obj(cls, _, fields) =>
      var flags := ObjectFlags(compact, Offsets(EncodeEach(fields, compact), HEADER_LENGTH));
      ObjectL(LayoutsOf(fields, compact), Times(|fields|, EntrySize(flags)))
    case _ => FlatL(|EncodeFlat(v)|)
  }

  function LayoutsOf(vs: seq<Value>, compact: bool): (ls: seq<Layout>)
    ensures |ls| == |vs|
    decreases vs, 0
  {
    if vs == [] then [] else [LayoutOf(vs[0], compact)] + LayoutsOf(vs[1..], compact)
  }

  /** Every complex object in the value can be looked up under its own identifiers. */
  predicate Registered(registry: Registry, v: Value)
    decreases v
  {
    match v
    case Container(_, _, elems) => forall i :: 0 <= i < |elems| ==> Registered(registry, elems[i])
    case Obj(cls, _, fields) =>
      Lookup(registry, cls.typeId, cls.SchemaIdentifier()).Ok?
      && forall i :: 0 <= i < |fields| ==> Registered(registry, fields[i])
    case _ => true
  }

  /** Where the registry knows an object's identifiers, it knows them as the object's own class. */
  predicate Agrees(registry: Registry, v: Value)
    decreases v
  {
    match v
    case Container(_, _, elems) => forall i :: 0 <= i < |elems| ==> Agrees(registry, elems[i])
    case Obj(cls, _, fields) =>
      ((cls.typeId, cls.SchemaIdentifier()) in registry ==>
         registry[(cls.typeId, cls.SchemaIdentifier())] == cls)
      && forall i :: 0 <= i < |fields| ==> Agrees(registry, fields[i])
    case _ => true
  }

  predicate HasObject(v: Value)
    decreases v
  {
    match v
    case Container(_, _, elems) => exists i :: 0 <= i < |elems| && HasObject(elems[i])
    case Obj(_, _, _) => true
    case _ => false
  }
}
