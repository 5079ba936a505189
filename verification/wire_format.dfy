/** The format byte by byte, with every type code and every offset written out: what any other implementation of it reads
    in the bytes of a value. */
module WireFormat {
  import opened Bytes
  import opened Decimals
  import opened DecimalCodec
  import opened Values
  import opened RoundTrip

  /** The number that bytes spell with the most significant byte first. */
  function BigEndian(b: bytes): nat {
    if b == [] then 0 else 256 * BigEndian(b[..|b| - 1]) + b[|b| - 1]
  }

  lemma {:induction false} ReversedIsBigEndian(b: bytes)
    ensures FromLE(Reverse(b)) == BigEndian(b)
    decreases |b|
  {
    if b != [] {
      ReversedIsBigEndian(b[..|b| - 1]);
      FromLECons(b[|b| - 1], Reverse(b[..|b| - 1]));
    }
  }

  // ---- type codes

  /** The classes of the type codes, by number. */
  lemma CodesByNumber()
    ensures KindOf(101) == NullKind && KindOf(9) == StringKind && KindOf(10) == UuidKind && KindOf(30) == DecimalKind
    ensures KindOf(103) == ObjectKind && KindOf(27) == WrappedKind
    ensures KindOf(1) == PrimKind(Elem(1, Signed)) && KindOf(2) == PrimKind(Elem(2, Signed))
    ensures KindOf(3) == PrimKind(Elem(4, Signed)) && KindOf(4) == PrimKind(Elem(8, Signed))
    ensures KindOf(5) == PrimKind(Elem(4, Pattern)) && KindOf(6) == PrimKind(Elem(8, Pattern))
    ensures KindOf(7) == PrimKind(Elem(2, CodeUnit)) && KindOf(8) == PrimKind(Elem(1, Flag))
  {}

  lemma PairCodesByNumber()
    ensures KindOf(11) == KindOf(36) == PrimKind(Elem(8, Signed)) && KindOf(33) == PairKind(8, 4)
    ensures KindOf(28) == KindOf(38) == PairKind(4, 4)
  {}

  lemma ArrayCodesByNumber()
    ensures KindOf(12) == PrimArrayKind(Elem(1, RawByte)) && KindOf(13) == PrimArrayKind(Elem(2, Signed))
    ensures KindOf(14) == PrimArrayKind(Elem(4, Signed)) && KindOf(15) == PrimArrayKind(Elem(8, Signed))
    ensures KindOf(16) == PrimArrayKind(Elem(4, Pattern)) && KindOf(17) == PrimArrayKind(Elem(8, Pattern))
    ensures KindOf(18) == PrimArrayKind(Elem(2, CodeUnit)) && KindOf(19) == PrimArrayKind(Elem(1, Flag))
  {}

  lemma PlainCodesByNumber()
    ensures KindOf(20) == ContainerKind(CountOnly, Typed(9), 1) && KindOf(21) == ContainerKind(CountOnly, Typed(10), 1)
    ensures KindOf(22) == ContainerKind(CountOnly, Typed(11), 1) && KindOf(31) == ContainerKind(CountOnly, Typed(30), 1)
    ensures KindOf(34) == ContainerKind(CountOnly, Typed(33), 1) && KindOf(37) == ContainerKind(CountOnly, Typed(36), 1)
  {}

  lemma ContainerCodesByNumber()
    ensures KindOf(29) == ContainerKind(TypeIdCount, Typed(28), 1) && KindOf(23) == ContainerKind(TypeIdCount, Any, 1)
    ensures KindOf(24) == ContainerKind(CountHint, Any, 1) && KindOf(25) == ContainerKind(CountHint, Any, 2)
  {}

  // ---- flat values

  /** Type code 9, the byte count, the UTF-8. */
  lemma StringFormat(utf8: bytes, compact: bool)
    requires |utf8| < MAX_LENGTH
    ensures var b := Encode(Str(utf8), compact);
      |b| == 5 + |utf8| && b[0] == 9 && FromLE(b[1..5]) == |utf8| && b[5..] == utf8
  {
    hide ToLE;
    CountField(|utf8|);
    assert Encode(Str(utf8), compact)[1..5] == ToLE(|utf8|, 4);
  }

  /** Type code 10, then the two halves, each with its least significant byte first. */
  lemma UuidFormat(octets: bytes, compact: bool)
    requires |octets| == 16
    ensures var b := Encode(Uuid(octets), compact);
      |b| == 17 && b[0] == 10 && FromLE(b[1..9]) == BigEndian(octets[..8]) && FromLE(b[9..17]) == BigEndian(octets[8..])
  {
    hide BigEndian, FromLE, Reverse;
    var b, high, low := Encode(Uuid(octets), compact), octets[..8], octets[8..];
    ReverseEight(high);
    ReverseEight(low);
    assert b[1..9] == Reverse(high) && b[9..17] == Reverse(low);
    ReversedIsBigEndian(high);
    ReversedIsBigEndian(low);
  }

  lemma {:induction false} ReverseAt(b: bytes, i: nat)
    requires i < |b|
    ensures Reverse(b)[i] == b[|b| - 1 - i]
    decreases |b|
  {
    if i > 0 { ReverseAt(b[..|b| - 1], i - 1); }
  }

  lemma ReverseEight(b: bytes)
    requires |b| == 8
    ensures Reverse(b) == [b[7], b[6], b[5], b[4], b[3], b[2], b[1], b[0]]
  {
    hide Reverse;
    forall i | 0 <= i < 8 ensures Reverse(b)[i] == b[7 - i] { ReverseAt(b, i); }
  }

  /** Type code 30, the scale, the byte count, then sign and coefficient in just so many bytes, most significant first. */
  lemma DecimalFormat(d: Decimal, compact: bool)
    requires MagnitudeLength(d.coefficient) < MAX_LENGTH
    ensures var b := Encode(Dec(d), compact);
      var n := |b| - 9;
      && n >= 1 && b[0] == 30 && FromLE(b[5..9]) == n
      && (FitsSigned(d.exponent, 4) && d.exponent > -0x8000_0000 ==> FromSignedLE(b[1..5]) == -d.exponent)
      && (b[9] >= 128 <==> d.negative) && BigEndian([b[9] % 128] + b[10..]) == d.coefficient
  {
    hide ToLE, FromLE, FromSignedLE, Magnitude, BigEndian, Reverse, FitsSigned, Pow256, DecodeMagnitude;
    var b, data := Encode(Dec(d), compact), Magnitude(d.negative, d.coefficient);
    assert b[1..5] == ToLE(-d.exponent, 4) && b[5..9] == ToLE(|data|, 4) && b[9..] == data;
    assert b[9] == data[0] && b[10..] == data[1..];
    CountField(|data|);
    if FitsSigned(d.exponent, 4) && d.exponent > -0x8000_0000 { NegatedFits(d.exponent); SignedBack(-d.exponent, 4); }
    MagnitudeRoundTrip(d.negative, d.coefficient);
    DecodedParts(data);
    ReversedIsBigEndian([data[0] % 128] + data[1..]);
  }

  lemma DecodedParts(data: bytes)
    requires data != []
    ensures DecodeMagnitude(data) == (data[0] >= 128, FromLE(Reverse([data[0] % 128] + data[1..])))
  {}

  lemma NegatedFits(v: int)
    requires FitsSigned(v, 4) && v > -0x8000_0000
    ensures FitsSigned(-v, 4)
  {
    Widths();
  }

  /** The type code, then the number in its width, negative ones in two's complement. */
  lemma NumberFormat(code: byte, x: int, compact: bool)
    requires KindOf(code).PrimKind?
    ensures var b, w := Encode(Prim(code, x), compact), KindOf(code).elem.width;
      |b| == 1 + w && b[0] == code && FromLE(b[1..]) == x % Pow256(w)
  {
    hide KindOf, ToLE;
    FromToLE(x, KindOf(code).elem.width);
    assert Encode(Prim(code, x), compact)[1..] == ToLE(x, KindOf(code).elem.width);
  }

  /** A timestamp: milliseconds, then the nanoseconds; an enumeration: the type identifier, then the ordinal. */
  lemma PairFormat(code: byte, x: int, y: int, compact: bool)
    requires KindOf(code).PairKind?
    ensures var b, k := Encode(Pair(code, x, y), compact), KindOf(code);
      |b| == 1 + k.width1 + k.width2 && b[0] == code
      && FromLE(b[1..1 + k.width1]) == x % Pow256(k.width1) && FromLE(b[1 + k.width1..]) == y % Pow256(k.width2)
  {
    hide KindOf, ToLE;
    var b, k := Encode(Pair(code, x, y), compact), KindOf(code);
    FromToLE(x, k.width1);
    FromToLE(y, k.width2);
    assert b[1..1 + k.width1] == ToLE(x, k.width1) && b[1 + k.width1..] == ToLE(y, k.width2);
  }

  lemma {:induction false} ElementAt(xs: seq<int>, width: nat, i: nat)
    requires i < |xs|
    ensures At(EncodeElems(xs, width), Times(i, width), ToLE(xs[i], width))
    decreases i
  {
    var first, rest := ToLE(xs[0], width), EncodeElems(xs[1..], width);
    assert EncodeElems(xs, width) == first + rest;
    hide EncodeElems, ToLE, Times;
    if i == 0 {
      TimesStep(0, width);
      assert (first + rest)[0..width] == first;
    } else {
      ElementAt(xs[1..], width, i - 1);
      TimesStep(i - 1, width);
      Shifted(first, rest, Times(i - 1, width), ToLE(xs[i], width));
    }
  }

  lemma Shifted(front: bytes, rest: bytes, at: nat, b: bytes)
    requires At(rest, at, b)
    ensures At(front + rest, |front| + at, b)
  {
    assert (front + rest)[|front| + at..|front| + at + |b|] == rest[at..at + |b|];
  }

  /** The type code, the element count, then the elements in order, each in its width. */
  lemma ArrayFormat(code: byte, xs: seq<int>, i: nat, compact: bool)
    requires KindOf(code).PrimArrayKind? && |xs| < MAX_LENGTH && i < |xs|
    ensures var b, w := Encode(PrimArray(code, xs), compact), KindOf(code).elem.width;
      && |b| == 5 + Times(|xs|, w) && b[0] == code && FromLE(b[1..5]) == |xs|
      && FromLE(Slice(b, 5 + Times(i, w), w)) == xs[i] % Pow256(w)
  {
    hide KindOf, ToLE, EncodeElems, Slice, At;
    var b, w := Encode(PrimArray(code, xs), compact), KindOf(code).elem.width;
    var front := [code] + ToLE(|xs|, 4);
    CountField(|xs|);
    assert b == front + EncodeElems(xs, w) && b[1..5] == ToLE(|xs|, 4);
    ElementAt(xs, w, i);
    Shifted(front, EncodeElems(xs, w), Times(i, w), ToLE(xs[i], w));
    AtSlice(b, 5 + Times(i, w), ToLE(xs[i], w), 0, w);
    FromToLE(xs[i], w);
    hide FromLE, Pow256;
  }

  // ---- containers

  /** Arrays of strings, UUIDs, dates, decimals, timestamps and times: type code, count, elements. */
  lemma PlainContainerFormat(code: byte, elems: seq<Value>, compact: bool)
    requires code in [20, 21, 22, 31, 34, 37] && |elems| < MAX_LENGTH
    ensures var b := Encode(Container(code, 0, elems), compact);
      |b| >= 5 && b[0] == code && FromLE(b[1..5]) == |elems| && b[5..] == Flatten(EncodeEach(elems, compact))
  {
    PlainCodesByNumber();
    hide KindOf, EncodeEach, Flatten, ToLE;
    CountField(|elems|);
    assert Encode(Container(code, 0, elems), compact)[1..5] == ToLE(|elems|, 4);
  }

  /** Arrays of objects and of enumerations: type code, type identifier, count, elements. */
  lemma TypedContainerFormat(code: byte, typeId: int, elems: seq<Value>, compact: bool)
    requires code in [23, 29] && |elems| < MAX_LENGTH && FitsSigned(typeId, 4)
    ensures var b := Encode(Container(code, typeId, elems), compact);
      |b| >= 9 && b[0] == code && FromSignedLE(b[1..5]) == typeId && FromLE(b[5..9]) == |elems|
      && b[9..] == Flatten(EncodeEach(elems, compact))
  {
    ContainerCodesByNumber();
    hide KindOf, EncodeEach, Flatten, ToLE, FitsSigned;
    CountField(|elems|);
    SignedBack(typeId, 4);
    var b := Encode(Container(code, typeId, elems), compact);
    assert b[1..5] == ToLE(typeId, 4) && b[5..9] == ToLE(|elems|, 4);
  }

  /** Collections and maps: type code, count, kind, then the elements; a map counts pairs and alternates keys and values. */
  lemma HintedContainerFormat(code: byte, hint: int, elems: seq<Value>, compact: bool)
    requires code == 24 || (code == 25 && |elems| % 2 == 0)
    requires |elems| < MAX_LENGTH && FitsSigned(hint, 1)
    ensures var b := Encode(Container(code, hint, elems), compact);
      |b| >= 6 && b[0] == code && FromLE(b[1..5]) == (if code == 25 then |elems| / 2 else |elems|) && FromSignedLE(b[5..6]) == hint
      && b[6..] == Flatten(EncodeEach(elems, compact))
  {
    ContainerCodesByNumber();
    hide KindOf, EncodeEach, Flatten, ToLE, FitsSigned;
    var count := if code == 25 then |elems| / 2 else |elems|;
    CountField(count);
    SignedBack(hint, 1);
    var b := Encode(Container(code, hint, elems), compact);
    assert b[1..5] == ToLE(count, 4) && b[5..6] == ToLE(hint, 1);
  }

  /** The parts of a container or of an object's fields stand one behind the other, in order. */
  lemma PartsInOrder(elems: seq<Value>, i: nat, compact: bool)
    requires i < |elems|
    ensures Flatten(EncodeEach(elems, compact))
         == Flatten(EncodeEach(elems[..i], compact)) + Encode(elems[i], compact) + Flatten(EncodeEach(elems[i + 1..], compact))
  {
    hide Encode, EncodeEach, Flatten;
    var before, x, after := EncodeEach(elems[..i], compact), Encode(elems[i], compact), EncodeEach(elems[i + 1..], compact);
    assert EncodeEach(elems, compact) == before + [x] + after;
    FlattenAppend(before + [x], after);
    FlattenSnoc(before, x);
  }
}
