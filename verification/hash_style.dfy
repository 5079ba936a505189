/** The cached hash under the other footer style: the hashed bytes change exactly if a field holds an object. */
module HashStyles {
  import opened Bytes
  import opened Hashing
  import opened Values
  import opened Layouts
  import opened Interpret
  import opened RoundTrip
  import opened FooterStyles
  import opened Exactness
  import opened Writer
  import opened GenericObjects

  // ---- where the footer style shows

  lemma FlagsAt(v: Value, compact: bool, rest: bytes)
    requires v.Obj? && WellFormed(v)
    ensures var bs := Encode(v, compact) + rest;
      |bs| >= 4 && (HasFlag(FromLE(bs[2..4]), COMPACT_FOOTER) <==> compact)
  {
    hide Encode, WellFormed, EncodeEach, Flatten, Offsets, ObjectFlags, ObjectHeader, BytesHash, HasFlag, FromLE;
    ObjectIsWellFormed(v);
    ObjectEncoding(v, compact);
    var parts := EncodeEach(v.fields, compact);
    var flags, header, data, footer := ObjectParts(v.cls, v.version, compact, parts);
    FlagsDecode(compact, Offsets(parts, HEADER_LENGTH));
    HeaderPrefix(v.cls, v.version, flags, BytesHash(data), HEADER_LENGTH + |data| + |footer|, HEADER_LENGTH + |data|);
    assert (Encode(v, compact) + rest)[2..4] == header[2..4];
  }

  /** The bytes of a value that holds an object show the style, whatever follows them. */
  lemma {:induction false} StyleShows(v: Value, a: bytes, b: bytes)
    requires WellFormed(v) && HasObject(v)
    ensures Encode(v, true) + a != Encode(v, false) + b
    decreases v, 1
  {
    hide Encode, WellFormed, EncodeEach, Flatten, HasFlag, FromLE, KindOf, ContainerHeader;
    if v.Obj? {
      FlagsAt(v, true, a);
      FlagsAt(v, false, b);
    } else {
      ContainerShape(v);
      ContainerBytes(v, true);
      ContainerBytes(v, false);
      var k := KindOf(v.code);
      var header := ContainerHeader(v.code, k.header, v.meta, |v.elems| / k.perEntry);
      var x, y := Flatten(EncodeEach(v.elems, true)), Flatten(EncodeEach(v.elems, false));
      StyleShowsEach(v.elems, Repeat(k.element, |v.elems|), a, b);
      SameFront(header, x, a, header, y, b);
    }
  }

  lemma ContainerBytes(v: Value, compact: bool)
    requires v.Container? && KindOf(v.code).ContainerKind?
    ensures var k := KindOf(v.code);
      Encode(v, compact) == ContainerHeader(v.code, k.header, v.meta, |v.elems| / k.perEntry)
                            + Flatten(EncodeEach(v.elems, compact))
  {
    hide KindOf, ContainerHeader, Flatten, EncodeEach;
  }

  lemma SameFront(h: bytes, x: bytes, a: bytes, g: bytes, y: bytes, b: bytes)
    requires h == g
    ensures h + x + a == g + y + b <==> x + a == y + b
  {
    assert h + x + a == h + (x + a) && g + y + b == g + (y + b);
    assert (h + (x + a))[|h|..] == x + a && (g + (y + b))[|g|..] == y + b;
  }

  lemma FirstPart(vs: seq<Value>, compact: bool)
    requires vs != []
    ensures Flatten(EncodeEach(vs, compact)) == Encode(vs[0], compact) + Flatten(EncodeEach(vs[1..], compact))
  {
    hide Encode;
    assert EncodeEach(vs, compact)[1..] == EncodeEach(vs[1..], compact);
  }

  lemma ListFacts(vs: seq<Value>, classes: seq<Class>)
    requires AllWellFormed(vs, classes) && AnyObject(vs)
    ensures vs != [] && classes != [] && WellFormed(vs[0]) && AllWellFormed(vs[1..], classes[1..])
    ensures HasObject(vs[0]) || AnyObject(vs[1..])
  {
    hide WellFormed, HasObject, KindOf, Accepts;
    ListStep(map[], vs);
  }

  lemma {:induction false} StyleShowsEach(vs: seq<Value>, classes: seq<Class>, a: bytes, b: bytes)
    requires AllWellFormed(vs, classes) && AnyObject(vs)
    ensures Flatten(EncodeEach(vs, true)) + a != Flatten(EncodeEach(vs, false)) + b
    decreases vs, 0
  {
    hide WellFormed, Encode, HasObject, KindOf, AllWellFormed, AnyObject;
    ListFacts(vs, classes);
    var v, x, y := vs[0], Flatten(EncodeEach(vs[1..], true)), Flatten(EncodeEach(vs[1..], false));
    FirstPart(vs, true);
    FirstPart(vs, false);
    hide EncodeEach, Flatten;
    if HasObject(v) {
      StyleShows(v, x + a, y + b);
      assert Encode(v, true) + x + a == Encode(v, true) + (x + a) && Encode(v, false) + y + b == Encode(v, false) + (y + b);
    } else {
      StyleIsForObjects(v, true, false);
      StyleShowsEach(vs[1..], classes[1..], a, b);
      SameFront(Encode(v, true), x, a, Encode(v, false), y, b);
    }
  }

  // ---- the cached hash

  /** The bytes a hash is taken of are the same under both styles exactly if no field holds an object. */
  lemma HashedBytesExactly(cls: ClassInfo, version: int, fields: seq<Value>)
    requires Writable(Obj(cls, version, fields))
    ensures Flatten(ClientParts(fields, true)) == Flatten(ClientParts(fields, false)) <==> !AnyObject(fields)
  {
    var v, ws := Obj(cls, version, fields), WrittenEach(fields);
    WrittenShape(v);
    hide Written, WrittenEach, WellFormed, EncodeEach, Flatten;
    WrittenEachKeepsObjects(map[], fields);
    ObjectIsWellFormed(Written(v));
    if AnyObject(ws) {
      StyleShowsEach(ws, FieldClasses(cls), [], []);
      assert Flatten(EncodeEach(ws, true)) + [] == Flatten(EncodeEach(ws, true));
      assert Flatten(EncodeEach(ws, false)) + [] == Flatten(EncodeEach(ws, false));
    } else {
      StyleIsForObjectsEach(ws, true, false);
    }
  }

  /** In every run the cached hash is that of the current fields under any style it can be asked for, if it was taken
      under that style or no field holds an object. */
  lemma CachedHashIsTrue(cls: ClassInfo, version: int, fields: seq<Value>, events: seq<Event>, compact: bool)
    requires |fields| == |cls.schema|
    ensures var st := Run(cls, NewObject(version, fields), events);
      (st.hash.Some? ==> st.hashStyle == compact || !AnyObject(st.fields))
      ==> AfterHash(cls, st, compact).hash == Some(FieldsHash(st.fields, compact))
  {
    var st := Run(cls, NewObject(version, fields), events);
    EveryRunIsCoherent(cls, version, fields, events);
    if st.hash.Some? && st.hashStyle != compact && !AnyObject(st.fields) {
      WrittenEachKeepsObjects(map[], st.fields);
      StyleIsForObjectsEach(WrittenEach(st.fields), st.hashStyle, compact);
    }
    hide Run, EncodeEach, BytesHash, Encode, HasObject;
  }

  // ---- an input on the other side

  /** Whether the bytes add up to an odd number. */
  predicate OddSum(bs: bytes) {
    bs != [] && OddSum(bs[..|bs| - 1]) != (bs[|bs| - 1] % 2 == 1)
  }

  lemma {:induction false} OddSumAppend(a: bytes, b: bytes)
    ensures OddSum(a + b) == (OddSum(a) != OddSum(b))
    decreases |b|
  {
    if b == [] {
      assert a + b == a;
    } else {
      OddSumAppend(a, b[..|b| - 1]);
      assert (a + b)[..|a + b| - 1] == a + b[..|b| - 1];
    }
  }

  /** 31 is odd, so the hash is even exactly if the sum is odd. */
  lemma HashParity(bs: bytes)
    ensures BytesHash(bs) % 2 == if OddSum(bs) then 0 else 1
  {
    PolyParity(bs);
    WrapParity(Poly31(1, SignedBytes(bs)));
    hide OddSum, Wrap32;
  }

  lemma WrapParity(v: int)
    ensures Wrap32(v) % 2 == v % 2
  {
    var q := (v + TWO31) / TWO32;
    assert v + TWO31 == q * TWO32 + (v + TWO31) % TWO32;
    var w := Wrap32(v);
    assert v == w + 2 * (TWO31 * q);
    EvenShift(w, TWO31 * q);
  }

  lemma EvenShift(w: int, k: int)
    ensures (w + 2 * k) % 2 == w % 2
  {}

  lemma {:induction false} PolyParity(bs: bytes)
    ensures Poly31(1, SignedBytes(bs)) % 2 == if OddSum(bs) then 0 else 1
    decreases |bs|
  {
    if bs != [] {
      var n := |bs| - 1;
      var before := Poly31(1, SignedBytes(bs[..n]));
      PolyParity(bs[..n]);
      assert SignedBytes(bs)[..n] == SignedBytes(bs[..n]);
      assert Poly31(1, SignedBytes(bs)) == 31 * before + SignedByte(bs[n]);
      hide Poly31, SignedBytes;
      StepParity(before, bs[n]);
    }
  }

  lemma StepParity(h: int, b: byte)
    ensures (31 * h + SignedByte(b)) % 2 == if h % 2 == b % 2 then 0 else 1
  {
    var k := 15 * h + h / 2 + b / 2 - if b >= 128 then 128 else 0;
    assert 31 * h + SignedByte(b) == (h % 2 + b % 2) + 2 * k;
    EvenShift(h % 2 + b % 2, k);
    hide SignedByte;
  }

  /** An object with one field, named "a" and null. */
  function Nested(typeId: int): Value {
    Obj(NestedClass(typeId), 1, [Null])
  }

  function NestedClass(typeId: int): ClassInfo {
    ClassInfo(typeId, [Field([97], TC_STRING)])
  }

  function NestedFooter(compact: bool): bytes {
    if compact then [24] else [97, 0, 0, 0, 24]
  }

  lemma NestedBytes(typeId: int, compact: bool)
    ensures ClientBytes(Nested(typeId), compact)
      == ObjectHeader(NestedClass(typeId), 1, if compact then 43 else 11, BytesHash([TC_NULL]), 25 + |NestedFooter(compact)|, 25)
         + [TC_NULL] + NestedFooter(compact)
  {
    hide ClientBytes, ClientParts, ObjectHeader, BytesHash, Flatten, FooterEntry, StringHash, NestedFooter, Offsets, ObjectFlags,
         ToLE;
    var v := Nested(typeId);
    var parts, flags := ClientParts(v.fields, compact), if compact then 43 else 11;
    ClientObject(v, compact);
    NullParts(compact);
    NestedFlags(compact);
    NestedEntry(compact);
    assert FooterEntries(flags, v.cls.FieldIds(), [24]) == [NestedFooter(compact)];
    OneFlattened(NestedFooter(compact));
    OneFlattened([TC_NULL]);
  }

  lemma NullParts(compact: bool)
    ensures ClientParts([Null], compact) == [[TC_NULL]]
  {
    assert ClientParts([Null], compact)[0] == ClientBytes(Null, compact) == [TC_NULL];
  }

  lemma OneFlattened(b: bytes)
    ensures Flatten([b]) == b
  {
    assert [b][1..] == [] && b + [] == b;
  }

  lemma NestedFlags(compact: bool)
    ensures Offsets([[TC_NULL]], HEADER_LENGTH) == [24]
    ensures ObjectFlags(compact, [24]) == if compact then 43 else 11
  {
    assert [[TC_NULL]][1..] == [] && [24][1..] == [];
  }

  lemma NestedEntry(compact: bool)
    ensures FooterEntry(if compact then 43 else 11, StringHash([97]), 24) == NestedFooter(compact)
  {
    assert StringHash([97]) == 97 by { assert [97][..0] == []; }
    assert ToLE(24, 1) == [24] by { assert ToLE(24, 1) == [24] + ToLE(0, 0); }
    ByteInFour(97);
    hide ToLE, StringHash;
  }

  lemma ByteInFour(b: byte)
    ensures ToLE(b, 4) == [b, 0, 0, 0]
  {
    assert ToLE(b, 4) == [b] + ToLE(0, 3) && ToLE(0, 3) == [0] + ToLE(0, 2) && ToLE(0, 2) == [0] + ToLE(0, 1);
    assert ToLE(0, 1) == [0] + ToLE(0, 0);
  }

  lemma HeaderParity(cls: ClassInfo, hash: int)
    ensures OddSum(ObjectHeader(cls, 1, 43, hash, 26, 25)) == OddSum(ObjectHeader(cls, 1, 11, hash, 30, 25))
  {
    ShortSums();
    hide ToLE, OddSum, SchemaId;
    var a := [TC_COMPLEX_OBJECT] + ToLE(1, 1);
    var b := ToLE(cls.typeId, 4) + ToLE(hash, 4);
    var c := ToLE(cls.SchemaIdentifier(), 4) + ToLE(25, 4);
    SumOfFive(a, ToLE(43, 2), b, ToLE(26, 4), c);
    SumOfFive(a, ToLE(11, 2), b, ToLE(30, 4), c);
    assert ObjectHeader(cls, 1, 43, hash, 26, 25) == a + ToLE(43, 2) + b + ToLE(26, 4) + c;
    assert ObjectHeader(cls, 1, 11, hash, 30, 25) == a + ToLE(11, 2) + b + ToLE(30, 4) + c;
  }

  lemma ShortSums()
    ensures OddSum(ToLE(43, 2)) && OddSum(ToLE(11, 2)) && !OddSum(ToLE(26, 4)) && !OddSum(ToLE(30, 4))
  {
    SmallSum(43, 1);
    SmallSum(11, 1);
    SmallSum(26, 3);
    SmallSum(30, 3);
  }

  lemma SmallSum(v: byte, zeros: nat)
    ensures OddSum(ToLE(v, zeros + 1)) <==> v % 2 == 1
  {
    NoSum(zeros);
    OddSumAppend([v], ToLE(0, zeros));
    assert ToLE(v, zeros + 1) == [v] + ToLE(0, zeros);
    assert OddSum([v]) == (OddSum([]) != (v % 2 == 1)) by { assert [v][..0] == []; }
  }

  lemma {:induction false} NoSum(n: nat)
    ensures !OddSum(ToLE(0, n))
  {
    if n > 0 {
      NoSum(n - 1);
      assert ToLE(0, n) == [0] + ToLE(0, n - 1);
      OddSumAppend([0], ToLE(0, n - 1));
      assert [0][..0] == [];
    }
  }

  lemma SumOfFive(a: bytes, b: bytes, c: bytes, d: bytes, e: bytes)
    ensures OddSum(a + b + c + d + e) == ((((OddSum(a) != OddSum(b)) != OddSum(c)) != OddSum(d)) != OddSum(e))
  {
    OddSumAppend(a, b);
    OddSumAppend(a + b, c);
    OddSumAppend(a + b + c, d);
    OddSumAppend(a + b + c + d, e);
  }

  lemma FooterParity()
    ensures !OddSum(NestedFooter(true)) && OddSum(NestedFooter(false))
  {
    assert [24][..0] == [];
    assert [97, 0, 0, 0, 24][..4] == [97, 0, 0, 0] && [97, 0, 0, 0][..3] == [97, 0, 0] && [97, 0, 0][..2] == [97, 0];
    assert [97, 0][..1] == [97] && [97][..0] == [];
  }

  lemma NestedHashes(typeId: int)
    ensures FieldsHash([Nested(typeId)], true) % 2 != FieldsHash([Nested(typeId)], false) % 2
  {
    var v := Nested(typeId);
    var x, y := ClientBytes(v, true), ClientBytes(v, false);
    hide ClientBytes, ClientParts, OddSum, BytesHash, ObjectHeader, Nested, Flatten;
    NestedBytes(typeId, true);
    NestedBytes(typeId, false);
    HeaderParity(NestedClass(typeId), BytesHash([TC_NULL]));
    FooterParity();
    var g := ObjectHeader(NestedClass(typeId), 1, 43, BytesHash([TC_NULL]), 26, 25);
    var h := ObjectHeader(NestedClass(typeId), 1, 11, BytesHash([TC_NULL]), 30, 25);
    OddSumAppend(g + [TC_NULL], NestedFooter(true));
    OddSumAppend(g, [TC_NULL]);
    OddSumAppend(h + [TC_NULL], NestedFooter(false));
    OddSumAppend(h, [TC_NULL]);
    HashParity(x);
    HashParity(y);
    OneFlattened(x);
    OneFlattened(y);
    assert ClientParts([v], true) == [x] && ClientParts([v], false) == [y];
  }

  /** An object hashed under one style keeps that hash under the other, where it is wrong. */
  lemma HashGoesStale(cls: ClassInfo, version: int, typeId: int) returns (compact: bool)
    requires |cls.schema| == 1
    ensures var st := Run(cls, NewObject(version, [Nested(typeId)]), [Hash(compact)]);
      AfterHash(cls, st, !compact).hash != Some(FieldsHash(st.fields, !compact))
  {
    hide FieldsHash, Fresh, Nested;
    NestedHashes(typeId);
    compact := FieldsHash([Nested(typeId)], true) % 2 == 1;
    var start := NewObject(version, [Nested(typeId)]);
    assert [Hash(compact)][..0] == [];
    assert Run(cls, start, [Hash(compact)]) == Serialised(cls, start, compact, true);
  }
}
