/** The handshake request: what it writes, and the length it declares before it writes. */
module Handshake {
  import opened Bytes
  import opened Bits
  import opened Values
  import opened BinaryStreams
  import opened Writer
  import opened Protocols
  import opened Framing

  // ---- text

  /** A Python string, as code points. */
  type Text = seq<int>

  /** UTF-8 of one code point (section 3 of RFC 3629). */
  function Utf8Char(c: int): bytes
    requires 0 <= c < 0x11_0000
  {
    if c < 0x80 then [c]
    else if c < 0x800 then [0xC0 + c / 0x40, 0x80 + c % 0x40]
    else if c < 0x1_0000 then [0xE0 + c / 0x1000, 0x80 + c / 0x40 % 0x40, 0x80 + c % 0x40]
    else [0xF0 + c / 0x4_0000, 0x80 + c / 0x1000 % 0x40, 0x80 + c / 0x40 % 0x40, 0x80 + c % 0x40]
  }

  /** Surrogates have no UTF-8. */
  predicate HasUtf8(c: int) {
    0 <= c < 0x11_0000 && !(0xD800 <= c < 0xE000)
  }

  predicate Encodable(t: Text) {
    forall i :: 0 <= i < |t| ==> HasUtf8(t[i])
  }

  function Utf8(t: Text): bytes
    requires Encodable(t)
  {
    if t == [] then [] else Utf8Char(t[0]) + Utf8(t[1..])
  }

  /** `str.encode`. */
  function EncodeText(t: Text): (b: Option<bytes>)
    ensures b == if Encodable(t) then Some(Utf8(t)) else None
  {
    if t == [] then Some([])
    else
      assert Encodable(t) <==> HasUtf8(t[0]) && Encodable(t[1..]) by { EncodableStep(t); }
      if !HasUtf8(t[0]) then None
      else
        var rest := EncodeText(t[1..]);
        if rest.None? then None else Some(Utf8Char(t[0]) + rest.value)
  }

  lemma EncodableStep(t: Text)
    requires t != []
    ensures Encodable(t) <==> HasUtf8(t[0]) && Encodable(t[1..])
  {
    hide HasUtf8;
    if HasUtf8(t[0]) && Encodable(t[1..]) { assert forall i :: 1 <= i < |t| ==> t[i] == t[1..][i - 1]; }
  }

  predicate Ascii(t: Text) {
    forall i :: 0 <= i < |t| ==> 0 <= t[i] < 0x80
  }

  lemma {:induction false} CharactersAreBytesExactly(t: Text)
    requires Encodable(t)
    ensures |Utf8(t)| >= |t|
    ensures |Utf8(t)| == |t| <==> Ascii(t)
  {
    if t != [] {
      CharactersAreBytesExactly(t[1..]);
      assert Ascii(t) <==> t[0] < 0x80 && Ascii(t[1..]) by {
        if Ascii(t) { assert forall i :: 0 <= i < |t[1..]| ==> t[1..][i] == t[i + 1]; }
        if t[0] < 0x80 && Ascii(t[1..]) { assert forall i :: 1 <= i < |t| ==> t[i] == t[1..][i - 1]; }
      }
    }
  }

  // ---- the request

  datatype Request = Request(context: Context, timezone: Option<Text>, username: Option<Text>, password: Option<Text>)

  const OP_HANDSHAKE: byte := 1
  const CLIENT_CODE: byte := 2
  const HASH_MAP: int := 1

  /** 'client.timezone' */
  function UserAttrTimezone(): (t: Text)
    ensures |t| == 15 && Ascii(t) && Encodable(t)
  {
    [99, 108, 105, 101, 110, 116, 46, 116, 105, 109, 101, 122, 111, 110, 101]
  }

  /** Python's truth value of an optional string. */
  predicate Given(t: Option<Text>) {
    t.Some? && t.value != []
  }

  predicate HasCredentials(r: Request) {
    Given(r.username) && Given(r.password)
  }

  function OptionalText(t: Option<Text>): Text {
    if t.Some? then t.value else []
  }

  /** The texts that go into the request. */
  predicate AllTexts(r: Request, good: Text -> bool) {
    && (UserAttributesSupported(r.context.version) ==> good(OptionalText(r.timezone)))
    && (HasCredentials(r) ==> good(r.username.value) && good(r.password.value))
  }

  /** The request cannot be built without features where the protocol has them, nor from text without UTF-8. */
  predicate Buildable(r: Request) {
    (FeatureFlagsSupported(r.context.version) ==> r.context.features.Some?) && AllTexts(r, Encodable)
  }

  function Features(r: Request): seq<Value>
    requires Buildable(r)
  {
    if FeatureFlagsSupported(r.context.version) then [PrimArray(TC_BYTE_ARRAY, MaskBytes(r.context.features.value))] else []
  }

  function AttributeMap(zone: Value): Value {
    Container(TC_MAP, HASH_MAP, [Str(Utf8(UserAttrTimezone())), zone])
  }

  function UserAttributes(r: Request): seq<Value>
    requires Buildable(r)
  {
    if UserAttributesSupported(r.context.version) then
      [AttributeMap(if r.timezone.Some? then Str(Utf8(r.timezone.value)) else Null)]
    else []
  }

  function Credentials(r: Request): seq<Value>
    requires Buildable(r)
  {
    if HasCredentials(r) then [Str(Utf8(r.username.value)), Str(Utf8(r.password.value))] else []
  }

  function Fields(r: Request): seq<Value>
    requires Buildable(r)
  {
    Features(r) + UserAttributes(r) + Credentials(r)
  }

  /** The length put into the first field, from character counts. */
  function DeclaredLength(r: Request): nat
    requires FeatureFlagsSupported(r.context.version) ==> r.context.features.Some?
  {
    8
    + (if FeatureFlagsSupported(r.context.version) then 5 + |MaskBytes(r.context.features.value)| else 0)
    + (if UserAttributesSupported(r.context.version) then
         6 + 5 + |UserAttrTimezone()| + (if Given(r.timezone) then 5 + |r.timezone.value| else 1) else 0)
    + (if HasCredentials(r) then 10 + |r.username.value| + |r.password.value| else 0)
  }

  function Head(r: Request): bytes
    requires FeatureFlagsSupported(r.context.version) ==> r.context.features.Some?
  {
    var v := r.context.version;
    ToLE(DeclaredLength(r), 4) + [OP_HANDSHAKE] + ToLE(v.0, 2) + ToLE(v.1, 2) + ToLE(v.2, 2) + [CLIENT_CODE]
  }

  function RequestBytes(r: Request, compact: bool): bytes
    requires Buildable(r)
  {
    Head(r) + Flatten(EncodeEach(Fields(r), compact))
  }

  predicate VersionFits(v: Version) {
    FitsSigned(v.0, 2) && FitsSigned(v.1, 2) && FitsSigned(v.2, 2)
  }

  // ---- the request, byte by byte

  function TextBytes(t: Text): bytes
    requires Encodable(t)
  {
    [9] + ToLE(|Utf8(t)|, 4) + Utf8(t)
  }

  lemma TextIsEncoded(t: Text, compact: bool)
    requires Encodable(t)
    ensures Encode(Str(Utf8(t)), compact) == TextBytes(t)
  {
    hide Utf8, ToLE;
  }

  lemma {:induction false} RawBytes(b: bytes)
    ensures EncodeElems(b, 1) == b
  {
    if b != [] {
      RawBytes(b[1..]);
      OneByte(b[0]);
      assert b == [b[0]] + b[1..];
    }
  }

  lemma MaskIsEncoded(mask: bytes, compact: bool)
    ensures Encode(PrimArray(TC_BYTE_ARRAY, mask), compact) == [12] + ToLE(|mask|, 4) + mask
  {
    assert KindOf(TC_BYTE_ARRAY) == PrimArrayKind(Elem(1, RawByte));
    RawBytes(mask);
    hide KindOf, ToLE, EncodeElems;
  }

  lemma MapIsEncoded(key: Value, zone: Value, compact: bool)
    ensures Encode(Container(TC_MAP, HASH_MAP, [key, zone]), compact)
         == [25] + ToLE(1, 4) + [1] + Encode(key, compact) + Encode(zone, compact)
  {
    MapKind();
    OneByte(1);
    hide KindOf, ToLE, Encode;
    TwoPartsFlat(key, zone, compact);
    assert Encode(Container(TC_MAP, HASH_MAP, [key, zone]), compact)
        == ContainerHeader(TC_MAP, CountHint, HASH_MAP, 1) + Flatten(EncodeEach([key, zone], compact)) by { MapEncoding([key, zone], compact); }
    hide EncodeEach, Flatten;
  }

  lemma MapEncoding(elems: seq<Value>, compact: bool)
    ensures Encode(Container(TC_MAP, HASH_MAP, elems), compact)
         == ContainerHeader(TC_MAP, CountHint, HASH_MAP, |elems| / 2) + Flatten(EncodeEach(elems, compact))
  {
    MapKind();
    hide KindOf, ContainerHeader, EncodeEach, Flatten;
  }

  lemma OnePartFlat(v: Value, compact: bool)
    ensures Flatten(EncodeEach([v], compact)) == Encode(v, compact)
  {
    hide Encode;
    var parts := EncodeEach([v], compact);
    assert parts[0] == Encode(v, compact) && parts[1..] == [];
    assert Flatten(parts) == parts[0] + [];
  }

  lemma PartsAppend(a: seq<Value>, b: seq<Value>, compact: bool)
    ensures Flatten(EncodeEach(a + b, compact)) == Flatten(EncodeEach(a, compact)) + Flatten(EncodeEach(b, compact))
  {
    hide Encode, EncodeEach, Flatten;
    FlattenAppend(EncodeEach(a, compact), EncodeEach(b, compact));
    assert EncodeEach(a + b, compact) == EncodeEach(a, compact) + EncodeEach(b, compact);
  }

  lemma TwoPartsFlat(v: Value, w: Value, compact: bool)
    ensures Flatten(EncodeEach([v, w], compact)) == Encode(v, compact) + Encode(w, compact)
  {
    hide Encode, EncodeEach, Flatten;
    assert [v, w] == [v] + [w];
    PartsAppend([v], [w], compact);
    OnePartFlat(v, compact);
    OnePartFlat(w, compact);
  }

  lemma {:induction false} AsciiIsItself(t: Text)
    requires Ascii(t)
    ensures Encodable(t) && Utf8(t) == t
  {
    if t != [] {
      AsciiIsItself(t[1..]);
      assert t == [t[0]] + t[1..];
    }
  }

  lemma KeyIsEncoded()
    ensures TextBytes(UserAttrTimezone())
      == [9] + ToLE(15, 4) + [99, 108, 105, 101, 110, 116, 46, 116, 105, 109, 101, 122, 111, 110, 101]
  {
    AsciiIsItself(UserAttrTimezone());
    hide Utf8, ToLE;
  }

  /** Length, operation 1, the three version numbers, client code 2; from 1.7.0 on the feature mask as a byte array; from
      1.7.1 on a map of one pair, 'client.timezone' and the time zone or null; then user name and password, if both are
      given. */
  lemma RequestSpelledOut(r: Request, compact: bool)
    requires Buildable(r)
    ensures var v := r.context.version;
      RequestBytes(r, compact)
      == ToLE(DeclaredLength(r), 4) + [1] + ToLE(v.0, 2) + ToLE(v.1, 2) + ToLE(v.2, 2) + [2]
         + (if Before(v, (1, 7, 0)) then []
            else var mask := MaskBytes(r.context.features.value); [12] + ToLE(|mask|, 4) + mask)
         + (if Before(v, (1, 7, 1)) then []
            else
              [25] + ToLE(1, 4) + [1]
              + ([9] + ToLE(15, 4) + [99, 108, 105, 101, 110, 116, 46, 116, 105, 109, 101, 122, 111, 110, 101])
              + if r.timezone.Some? then TextBytes(r.timezone.value) else [101])
         + (if r.username.None? || r.username.value == [] || r.password.None? || r.password.value == [] then []
            else TextBytes(r.username.value) + TextBytes(r.password.value))
  {
    hide ToLE, Utf8, Encodable, Encode, EncodeEach, Flatten, MaskBytes, TextBytes, DeclaredLength, UserAttrTimezone, Before;
    hide Features, UserAttributes, Credentials;
    KeyIsEncoded();
    PartsAppend(Features(r) + UserAttributes(r), Credentials(r), compact);
    PartsAppend(Features(r), UserAttributes(r), compact);
    FeaturesSpelled(r, compact);
    AttributesSpelled(r, compact);
    CredentialsSpelled(r, compact);
    FourParts(Head(r), Flatten(EncodeEach(Features(r), compact)), Flatten(EncodeEach(UserAttributes(r), compact)),
              Flatten(EncodeEach(Credentials(r), compact)));
  }

  lemma FourParts(a: bytes, b: bytes, c: bytes, d: bytes)
    ensures a + (b + c + d) == a + b + c + d
  {}

  lemma CredentialsSpelled(r: Request, compact: bool)
    requires Buildable(r)
    ensures Flatten(EncodeEach(Credentials(r), compact))
      == if r.username.None? || r.username.value == [] || r.password.None? || r.password.value == [] then []
         else TextBytes(r.username.value) + TextBytes(r.password.value)
  {
    hide ToLE, Utf8, Encodable, Encode, EncodeEach, Flatten, TextBytes;
    NoParts(compact);
    if HasCredentials(r) {
      TwoPartsFlat(Str(Utf8(r.username.value)), Str(Utf8(r.password.value)), compact);
      TextIsEncoded(r.username.value, compact);
      TextIsEncoded(r.password.value, compact);
    }
  }

  lemma FeaturesSpelled(r: Request, compact: bool)
    requires Buildable(r)
    ensures Flatten(EncodeEach(Features(r), compact))
      == if Before(r.context.version, (1, 7, 0)) then []
         else var mask := MaskBytes(r.context.features.value); [12] + ToLE(|mask|, 4) + mask
  {
    hide ToLE, Encode, EncodeEach, Flatten, MaskBytes, Before;
    NoParts(compact);
    if !Before(r.context.version, (1, 7, 0)) {
      var mask := MaskBytes(r.context.features.value);
      OnePartFlat(PrimArray(TC_BYTE_ARRAY, mask), compact);
      MaskIsEncoded(mask, compact);
    }
  }

  lemma AttributesSpelled(r: Request, compact: bool)
    requires Buildable(r)
    ensures Flatten(EncodeEach(UserAttributes(r), compact))
      == if Before(r.context.version, (1, 7, 1)) then []
         else
           [25] + ToLE(1, 4) + [1] + TextBytes(UserAttrTimezone())
           + if r.timezone.Some? then TextBytes(r.timezone.value) else [101]
  {
    hide ToLE, Utf8, Encodable, Encode, EncodeEach, Flatten, TextBytes, UserAttrTimezone, Before;
    NoParts(compact);
    if !Before(r.context.version, (1, 7, 1)) {
      var zone := if r.timezone.Some? then Str(Utf8(r.timezone.value)) else Null;
      OnePartFlat(AttributeMap(zone), compact);
      MapIsEncoded(Str(Utf8(UserAttrTimezone())), zone, compact);
      TextIsEncoded(UserAttrTimezone(), compact);
      NullIsEncoded(compact);
      if r.timezone.Some? { TextIsEncoded(r.timezone.value, compact); }
    }
  }

  lemma NullIsEncoded(compact: bool)
    ensures Encode(Null, compact) == [101]
  {}

  // ---- sizes

  lemma FieldsSize(r: Request, compact: bool)
    requires Buildable(r)
    ensures |RequestBytes(r, compact)| == 4 + 8
      + (if FeatureFlagsSupported(r.context.version) then 5 + |MaskBytes(r.context.features.value)| else 0)
      + (if UserAttributesSupported(r.context.version) then
           11 + |UserAttrTimezone()| + (if r.timezone.Some? then 5 + |Utf8(r.timezone.value)| else 1) else 0)
      + (if HasCredentials(r) then 10 + |Utf8(r.username.value)| + |Utf8(r.password.value)| else 0)
  {
    hide ToLE, Utf8, MaskBytes, DeclaredLength, RequestBytes, Encodable;
    RequestSpelledOut(r, compact);
  }

  lemma NoParts(compact: bool)
    ensures Flatten(EncodeEach([], compact)) == []
  {}

  /** The declared length is the number of bytes that follow it exactly when every text in the request is ASCII
      and the time zone, where one is written, is not the empty string. */
  lemma DeclaredLengthExactly(r: Request, compact: bool)
    requires Buildable(r)
    ensures |RequestBytes(r, compact)| - 4 >= DeclaredLength(r)
    ensures |RequestBytes(r, compact)| - 4 == DeclaredLength(r) <==>
      AllTexts(r, Ascii) && (UserAttributesSupported(r.context.version) ==> r.timezone != Some([]))
  {
    hide RequestBytes, Utf8, BitLength, UserAttrTimezone;
    FieldsSize(r, compact);
    if UserAttributesSupported(r.context.version) { CharactersAreBytesExactly(OptionalText(r.timezone)); }
    if HasCredentials(r) {
      CharactersAreBytesExactly(r.username.value);
      CharactersAreBytesExactly(r.password.value);
    }
  }

  /** Under the same condition a receiver cuts the request out of the byte stream as one frame. */
  lemma RequestIsOneFrameExactly(r: Request, compact: bool)
    requires Buildable(r) && |RequestBytes(r, true)| < MAX_LENGTH
    ensures IsFrame(RequestBytes(r, compact)) <==>
      AllTexts(r, Ascii) && (UserAttributesSupported(r.context.version) ==> r.timezone != Some([]))
  {
    hide AllTexts, DeclaredLength, BitLength, MaskBytes, Fields, Flatten, EncodeEach, Encode, Utf8;
    DeclaredLengthExactly(r, compact);
    DeclaredLengthExactly(r, true);
    FieldsSize(r, compact);
    FieldsSize(r, true);
    var b := RequestBytes(r, compact);
    assert b[..4] == ToLE(DeclaredLength(r), 4);
    FromToSignedLE(DeclaredLength(r), 4);
    Widths();
    WrapIdentity(DeclaredLength(r), 4);
  }

  // ---- writing it

  /** A field as `__create_handshake_data` collects it; its text is encoded when it is written. */
  datatype Field = Mask(bits: bytes) | Attributes(zone: Option<Text>) | Plaintext(text: Text)

  function FieldsOf(r: Request): seq<Field>
    requires FeatureFlagsSupported(r.context.version) ==> r.context.features.Some?
  {
    (if FeatureFlagsSupported(r.context.version) then [Mask(MaskBytes(r.context.features.value))] else [])
    + (if UserAttributesSupported(r.context.version) then [Attributes(r.timezone)] else [])
    + (if HasCredentials(r) then [Plaintext(r.username.value), Plaintext(r.password.value)] else [])
  }

  function ValueOf(f: Field): Option<Value> {
    match f
    case Mask(bits) => Some(PrimArray(TC_BYTE_ARRAY, bits))
    case Plaintext(text) =>
      var b := EncodeText(text);
      if b.None? then None else Some(Str(b.value))
    case Attributes(zone) =>
      var b := if zone.Some? then EncodeText(zone.value) else Some([]);
      if b.None? then None else Some(AttributeMap(if zone.Some? then Str(b.value) else Null))
  }

  /** The fields can be encoded exactly if the request can be built, and then to its values. */
  lemma FieldsAreValues(r: Request)
    requires FeatureFlagsSupported(r.context.version) ==> r.context.features.Some?
    ensures Buildable(r) <==> forall i :: 0 <= i < |FieldsOf(r)| ==> ValueOf(FieldsOf(r)[i]).Some?
    ensures Buildable(r) ==>
      |Fields(r)| == |FieldsOf(r)| && forall i :: 0 <= i < |FieldsOf(r)| ==> ValueOf(FieldsOf(r)[i]) == Some(Fields(r)[i])
  {
    hide Utf8, Encodable, MaskBytes, UserAttrTimezone, EncodeText;
    var fs := FieldsOf(r);
    EmptyIsEncodable();
    var m := if FeatureFlagsSupported(r.context.version) then 1 else 0;
    var n := m + if UserAttributesSupported(r.context.version) then 1 else 0;
    assert UserAttributesSupported(r.context.version) ==> fs[m] == Attributes(r.timezone);
    assert HasCredentials(r) ==> fs[n] == Plaintext(r.username.value) && fs[n + 1] == Plaintext(r.password.value);
  }

  lemma EmptyIsEncodable()
    ensures Encodable([])
  {}

  /** Lengths fit their fields. */
  predicate FieldFits(f: Field) {
    match f
    case Mask(bits) => |bits| < MAX_LENGTH
    case Plaintext(text) => TextFits(text)
    case Attributes(zone) => TextFits(OptionalText(zone))
  }

  predicate TextFits(t: Text) {
    Encodable(t) ==> |Utf8(t)| < MAX_LENGTH
  }

  lemma FieldIsWritable(f: Field, compact: bool)
    requires ValueOf(f).Some? && FieldFits(f)
    ensures var v := ValueOf(f).value;
      Writable(v) && Sendable(v) && !v.Obj? && ClientBytes(v, compact) == Encode(v, compact)
  {
    hide Utf8, Encodable, EncodeText, Encode;
    match f
    case Mask(bits) => FeaturesWritable(bits);
    case Plaintext(text) =>
    case Attributes(zone) =>
      CharactersAreBytesExactly(UserAttrTimezone());
      EmptyIsEncodable();
      AttributesWritable(if zone.Some? then Str(EncodeText(zone.value).value) else Null);
  }

  lemma AttributesWritable(zone: Value)
    requires (zone.Str? || zone.Null?) && WellFormed(zone) && |Utf8(UserAttrTimezone())| == 15
    ensures var v := AttributeMap(zone); Writable(v) && Sendable(v) && Written(v) == v
  {
    hide Utf8, UserAttrTimezone, KindOf, Pow256;
    Widths();
    MapKind();
    var elems := [Str(Utf8(UserAttrTimezone())), zone];
    assert WrittenEach(elems) == elems && WellFormed(elems[0]) && WellFormed(elems[1]);
    assert MetaFits(CountHint, HASH_MAP);
    assert Written(AttributeMap(zone)) == AttributeMap(zone);
  }

  lemma MapKind()
    ensures KindOf(TC_MAP) == ContainerKind(CountHint, Any, 2)
  {}

  lemma FeaturesWritable(mask: bytes)
    requires |mask| < MAX_LENGTH
    ensures var v := PrimArray(TC_BYTE_ARRAY, mask); Writable(v) && Sendable(v) && Written(v) == v
  {
    assert KindOf(TC_BYTE_ARRAY) == PrimArrayKind(Elem(1, RawByte));
    hide KindOf;
  }

  /** The fields and the length that `__init__` and `__create_handshake_data` collect; `bytes(None)` fails. */
  method CreateHandshakeData(r: Request) returns (data: Option<(nat, seq<Field>)>)
    ensures data.None? <==> FeatureFlagsSupported(r.context.version) && r.context.features.None?
    ensures data.Some? ==> data.value == (DeclaredLength(r), FieldsOf(r))
  {
    hide UserAttrTimezone, MaskBytes;
    var length, fields := 8, [];
    if FeatureFlagsSupported(r.context.version) {
      if r.context.features.None? { return None; }
      var features := MaskBytes(r.context.features.value);
      length := length + 5 + |features|;
      fields := fields + [Mask(features)];
    }
    if UserAttributesSupported(r.context.version) {
      length := length + 11 + |UserAttrTimezone()| + if Given(r.timezone) then 5 + |r.timezone.value| else 1;
      fields := fields + [Attributes(r.timezone)];
    }
    if HasCredentials(r) {
      length := length + 10 + |r.username.value| + |r.password.value|;
      fields := fields + [Plaintext(r.username.value), Plaintext(r.password.value)];
    }
    assert fields == FieldsOf(r);
    data := Some((length, fields));
  }

  /** `struct.pack` fails on a number out of range. */
  method PutInt(s: BinaryStream, v: int, n: nat, ghost data: bytes, ghost pos: nat, ghost w: bytes) returns (ok: bool)
    requires Wrote(s, data, pos, w)
    modifies s
    ensures ok <==> FitsSigned(v, n)
    ensures ok ==> Wrote(s, data, pos, w + ToLE(v, n))
  {
    ok := FitsSigned(v, n);
    if ok { Put(s, ToLE(v, n), data, pos, w); }
  }

  /** The six fields of fixed size. */
  method WriteHead(s: BinaryStream, length: nat, v: Version) returns (ok: bool)
    requires !s.Stuck()
    modifies s
    ensures ok <==> FitsSigned(length, 4) && VersionFits(v)
    ensures ok ==> s.data != [] && Wrote(s, old(s.data), old(s.pos),
      ToLE(length, 4) + [OP_HANDSHAKE] + ToLE(v.0, 2) + ToLE(v.1, 2) + ToLE(v.2, 2) + [CLIENT_CODE])
  {
    hide ToLE, Overlay, FitsSigned, Wrote;
    ghost var data, pos := s.data, s.pos;
    OverlayNothing(data, pos);
    WroteNothing(s);
    assert [] + ToLE(length, 4) == ToLE(length, 4);
    ok := PutInt(s, length, 4, data, pos, []);
    if !ok { return; }
    ghost var w := ToLE(length, 4);
    Put(s, [OP_HANDSHAKE], data, pos, w);
    w := w + [OP_HANDSHAKE];
    ok := PutInt(s, v.0, 2, data, pos, w);
    if !ok { return; }
    w := w + ToLE(v.0, 2);
    ok := PutInt(s, v.1, 2, data, pos, w);
    if !ok { return; }
    w := w + ToLE(v.1, 2);
    ok := PutInt(s, v.2, 2, data, pos, w);
    if !ok { return; }
    Put(s, [CLIENT_CODE], data, pos, w + ToLE(v.2, 2));
  }

  lemma NeedsFeatures(r: Request)
    requires FeatureFlagsSupported(r.context.version) && r.context.features.None?
    ensures !Buildable(r)
  {}

  lemma FieldsFit(r: Request)
    requires FeatureFlagsSupported(r.context.version) ==> r.context.features.Some?
    requires FitsSigned(DeclaredLength(r), 4) && AllTexts(r, TextFits)
    ensures forall i :: 0 <= i < |FieldsOf(r)| ==> FieldFits(FieldsOf(r)[i])
  {
    hide TextFits, MaskBytes, UserAttrTimezone;
    Widths();
    EmptyIsEncodable();
  }

  /** `Struct.from_python`: field by field, the length first. It fails exactly on a request that cannot be built, and on
      a length or a version number that does not fit its field. */
  method FromPython(s: BinaryStream, r: Request) returns (ok: bool)
    requires !s.Stuck() && AllTexts(r, TextFits)
    modifies s, s.client
    ensures ok <==> Buildable(r) && FitsSigned(DeclaredLength(r), 4) && VersionFits(r.context.version)
    ensures ok ==> Wrote(s, old(s.data), old(s.pos), RequestBytes(r, old(s.client.CompactFooter())))
  {
    hide Wrote, Fields, FieldsOf, Encode, EncodeEach, Flatten, MaskBytes, ToLE, FitsSigned, Buildable, AllTexts, ValueOf,
         DeclaredLength;
    ghost var data, pos, compact := s.data, s.pos, s.client.CompactFooter();
    var collected := CreateHandshakeData(r);
    if collected.None? {
      NeedsFeatures(r);
      return false;
    }
    var (length, fields) := collected.value;
    ok := WriteHead(s, length, r.context.version);
    if !ok { return; }
    FieldsAreValues(r);
    FieldsFit(r);
    ghost var written;
    ok, written := WriteFields(s, fields, data, pos, Head(r));
    if ok { assert written == Fields(r); }
  }

  method WriteFields(s: BinaryStream, fields: seq<Field>, ghost data: bytes, ghost pos: nat, ghost head: bytes)
    returns (ok: bool, ghost written: seq<Value>)
    requires Wrote(s, data, pos, head) && s.data != [] && forall i :: 0 <= i < |fields| ==> FieldFits(fields[i])
    modifies s, s.client
    ensures ok <==> forall i :: 0 <= i < |fields| ==> ValueOf(fields[i]).Some?
    ensures ok ==> |written| == |fields| && forall i :: 0 <= i < |fields| ==> ValueOf(fields[i]) == Some(written[i])
    ensures ok ==> Wrote(s, data, pos, head + Flatten(EncodeEach(written, old(s.client.CompactFooter()))))
  {
    hide Wrote, Encode, EncodeEach, Flatten, ValueOf, FieldFits, Overlay, ClientBytes, Writable, Sendable;
    ghost var compact := s.client.CompactFooter();
    written := [];
    NoParts(compact);
    assert head + [] == head;
    for i := 0 to |fields|
      invariant |written| == i && forall j :: 0 <= j < i ==> ValueOf(fields[j]) == Some(written[j])
      invariant Wrote(s, data, pos, head + Flatten(EncodeEach(written, compact)))
      invariant s.data != [] && s.client.CompactFooter() == compact
    {
      var v := ValueOf(fields[i]);
      if v.None? { return false, written; }
      ghost var w := head + Flatten(EncodeEach(written, compact));
      FieldIsWritable(fields[i], compact);
      WroteFacts(s, data, pos, w);
      var r := Writer.FromPython(s, v.value);
      ClientBytesBegin(v.value, compact);
      WroteMore(s, data, pos, w, Encode(v.value, compact));
      EncodeEachSnoc(written, v.value, compact);
      FlattenSnoc(EncodeEach(written, compact), Encode(v.value, compact));
      assert head + (Flatten(EncodeEach(written, compact)) + Encode(v.value, compact)) == w + Encode(v.value, compact);
      written := written + [v.value];
    }
    ok := true;
  }
}
