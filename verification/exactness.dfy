/** The reading law at full generality, and exactly when it returns the value that was written. */
module Exactness {
  import opened Bytes
  import opened Decimals
  import opened Values
  import opened Layouts
  import opened Interpret
  import opened RoundTrip
  import opened FooterStyles

  // ---- dictionaries

  lemma DictOfStep(pairs: seq<Value>)
    requires |pairs| % 2 == 0 && pairs != [] && DictOf(pairs).Ok?
    ensures var n := |pairs| - 2;
      DictOf(pairs[..n]).Ok? && Hashable(pairs[n])
      && DictOf(pairs).value == DictPut(DictOf(pairs[..n]).value, pairs[n], pairs[n + 1])
  {
    hide Hashable, DictPut;
  }

  lemma {:induction false} KeysAreHashable(pairs: seq<Value>)
    requires |pairs| % 2 == 0 && DictOf(pairs).Ok?
    ensures forall i :: 0 <= i < |pairs| && i % 2 == 0 ==> Hashable(pairs[i])
  {
    hide Hashable, DictOf, DictPut;
    if pairs != [] {
      var n := |pairs| - 2;
      DictOfStep(pairs);
      KeysAreHashable(pairs[..n]);
      forall i | 0 <= i < |pairs| && i % 2 == 0 ensures Hashable(pairs[i]) {
        if i < n { assert pairs[i] == pairs[..n][i]; } else { assert i == n; }
      }
    }
  }

  /** Rebuilding a dictionary never adds pairs; it keeps all of them only if it changes nothing. */
  lemma {:induction false} DictOfShrinks(pairs: seq<Value>)
    requires |pairs| % 2 == 0 && DictOf(pairs).Ok?
    ensures |DictOf(pairs).value| <= |pairs|
    ensures |DictOf(pairs).value| == |pairs| ==> DictOf(pairs).value == pairs
  {
    hide DictOf, DictPut, Hashable;
    if pairs == [] {
      EmptyDict();
    } else {
      var n := |pairs| - 2;
      var before, k, v := pairs[..n], pairs[n], pairs[n + 1];
      DictOfStep(pairs);
      DictOfShrinks(before);
      assert pairs == before + [k, v];
      PutShrinks(before, DictOf(before).value, k, v);
    }
  }

  lemma EmptyDict()
    ensures DictOf([]) == Ok([])
  {}

  lemma PutShrinks(before: seq<Value>, kv: seq<Value>, k: Value, v: Value)
    requires |kv| % 2 == 0 && |kv| <= |before| && (|kv| == |before| ==> kv == before)
    ensures |DictPut(kv, k, v)| <= |before + [k, v]|
    ensures |DictPut(kv, k, v)| == |before + [k, v]| ==> DictPut(kv, k, v) == before + [k, v]
  {
    hide DictPut;
    PutGrowth(kv, k, v);
  }

  lemma PutGrowth(kv: seq<Value>, k: Value, v: Value)
    requires |kv| % 2 == 0
    ensures DictPut(kv, k, v) == kv + [k, v] || |DictPut(kv, k, v)| == |kv|
  {
    hide KeyIndex;
  }

  lemma {:induction false} DictOfDistinct(pairs: seq<Value>)
    requires |pairs| % 2 == 0 && DistinctKeys(pairs)
    requires forall i :: 0 <= i < |pairs| && i % 2 == 0 ==> Hashable(pairs[i])
    ensures DictOf(pairs) == Ok(pairs)
  {
    if pairs == [] {
      EmptyDict();
    } else {
      hide DictOf, DictPut, Hashable, DistinctKeys;
      var n := |pairs| - 2;
      var before := pairs[..n];
      assert forall i :: 0 <= i < n ==> pairs[i] == before[i];
      assert pairs == before + [pairs[n], pairs[n + 1]];
      DistinctStep(before, pairs[n], pairs[n + 1]);
      DictOfDistinct(before);
      PutNew(before, pairs[n], pairs[n + 1]);
      DictOfLast(pairs);
    }
  }

  /** What a dictionary holds under a key. */
  function ValueAt(kv: seq<Value>, k: Value): Option<Value>
    requires |kv| % 2 == 0
  {
    if kv == [] then None else if kv[0] == k then Some(kv[1]) else ValueAt(kv[2..], k)
  }

  /** The value that was assigned to a key last. */
  function LastValue(pairs: seq<Value>, k: Value): Option<Value>
    requires |pairs| % 2 == 0
  {
    if pairs == [] then None
    else if pairs[|pairs| - 2] == k then Some(pairs[|pairs| - 1])
    else LastValue(pairs[..|pairs| - 2], k)
  }

  lemma PutBehind(kv: seq<Value>, k: Value, v: Value)
    requires kv != [] && |kv| % 2 == 0 && kv[0] != k
    ensures var put := DictPut(kv, k, v); |put| >= 2 && put[0] == kv[0] && put[1] == kv[1] && put[2..] == DictPut(kv[2..], k, v)
  {
    hide KeyIndex;
    IndexBehind(kv, k);
    var rest, i := kv[2..], KeyIndex(kv[2..], k);
    if i < |rest| {
      UpdateBehind(kv, i, v);
    } else {
      assert (kv + [k, v])[2..] == rest + [k, v];
    }
  }

  lemma IndexBehind(kv: seq<Value>, k: Value)
    requires kv != [] && |kv| % 2 == 0 && kv[0] != k
    ensures KeyIndex(kv, k) == 2 + KeyIndex(kv[2..], k)
  {}

  lemma UpdateBehind(kv: seq<Value>, i: nat, v: Value)
    requires i + 3 < |kv|
    ensures kv[i + 3 := v][2..] == kv[2..][i + 1 := v]
  {}

  lemma {:induction false} PutValue(kv: seq<Value>, k: Value, v: Value, key: Value)
    requires |kv| % 2 == 0
    ensures ValueAt(DictPut(kv, k, v), key) == if key == k then Some(v) else ValueAt(kv, key)
  {
    if kv == [] {
      assert [k, v][2..] == [];
    } else if kv[0] != k {
      PutValue(kv[2..], k, v, key);
      PutBehind(kv, k, v);
      hide DictPut;
    } else {
      PutFirst(kv, k, v);
      hide DictPut;
    }
  }

  lemma PutFirst(kv: seq<Value>, k: Value, v: Value)
    requires kv != [] && |kv| % 2 == 0 && kv[0] == k
    ensures var put := DictPut(kv, k, v); |put| >= 2 && put[0] == k && put[1] == v && put[2..] == kv[2..]
  {
    assert KeyIndex(kv, k) == 0;
    hide KeyIndex;
  }

  /** A rebuilt dictionary holds the last value of each key. */
  lemma {:induction false} DictHoldsLast(pairs: seq<Value>, key: Value)
    requires |pairs| % 2 == 0 && DictOf(pairs).Ok?
    ensures ValueAt(DictOf(pairs).value, key) == LastValue(pairs, key)
  {
    if pairs == [] {
      EmptyDict();
    } else {
      hide DictOf, DictPut, Hashable, ValueAt;
      var n := |pairs| - 2;
      DictOfStep(pairs);
      DictHoldsLast(pairs[..n], key);
      PutValue(DictOf(pairs[..n]).value, pairs[n], pairs[n + 1], key);
    }
  }

  /** A dictionary that comes out unchanged had no key twice. */
  lemma {:induction false} UnchangedIsDistinct(pairs: seq<Value>)
    requires |pairs| % 2 == 0 && DictOf(pairs) == Ok(pairs)
    ensures DistinctKeys(pairs)
  {
    if pairs != [] {
      hide DictOf, DictPut, Hashable, DistinctKeys;
      var n := |pairs| - 2;
      var before := pairs[..n];
      assert pairs == before + [pairs[n], pairs[n + 1]];
      UnchangedBefore(pairs);
      UnchangedIsDistinct(before);
      DistinctStep(before, pairs[n], pairs[n + 1]);
    } else {
      NoKeys();
    }
  }

  lemma UnchangedBefore(pairs: seq<Value>)
    requires |pairs| % 2 == 0 && pairs != [] && DictOf(pairs) == Ok(pairs)
    ensures var n := |pairs| - 2;
      DictOf(pairs[..n]) == Ok(pairs[..n])
      && forall i :: 0 <= i < n && i % 2 == 0 ==> pairs[..n][i] != pairs[n]
  {
    hide DictOf, DictPut, Hashable;
    var n := |pairs| - 2;
    var before, k, v := pairs[..n], pairs[n], pairs[n + 1];
    DictOfStep(pairs);
    DictOfShrinks(before);
    PutGrowth(DictOf(before).value, k, v);
    PutOld(before, k, v);
  }

  lemma NoKeys()
    ensures DistinctKeys([])
  {}

  lemma DistinctStep(before: seq<Value>, k: Value, v: Value)
    requires |before| % 2 == 0
    ensures DistinctKeys(before + [k, v]) <==>
      DistinctKeys(before) && forall i :: 0 <= i < |before| && i % 2 == 0 ==> before[i] != k
  {
    var all, n := before + [k, v], |before|;
    assert all[n] == k && forall i :: 0 <= i < n ==> all[i] == before[i];
    if DistinctKeys(all) {
      forall i | 0 <= i < n && i % 2 == 0 ensures before[i] != k { assert all[i] != all[n]; }
    }
  }

  lemma PutOld(kv: seq<Value>, k: Value, v: Value)
    requires |kv| % 2 == 0
    ensures |DictPut(kv, k, v)| == |kv| + 2 ==> forall i :: 0 <= i < |kv| && i % 2 == 0 ==> kv[i] != k
  {
    hide KeyIndex;
  }

  lemma PutNew(kv: seq<Value>, k: Value, v: Value)
    requires |kv| % 2 == 0 && forall i :: 0 <= i < |kv| && i % 2 == 0 ==> kv[i] != k
    ensures DictPut(kv, k, v) == kv + [k, v]
  {
    hide KeyIndex;
  }

  lemma DictOfLast(pairs: seq<Value>)
    requires |pairs| % 2 == 0 && pairs != [] && DictOf(pairs[..|pairs| - 2]).Ok? && Hashable(pairs[|pairs| - 2])
    ensures var n := |pairs| - 2;
      DictOf(pairs) == Ok(DictPut(DictOf(pairs[..n]).value, pairs[n], pairs[n + 1]))
  {
    hide Hashable, DictPut;
  }

  // ---- observed and clean

  ghost predicate AllClean(vs: seq<Value>, origin: Origin) {
    forall i :: 0 <= i < |vs| ==> Clean(vs[i], origin)
  }

  /** A reader sees an equal value exactly when the value is clean. */
  lemma {:induction false} ObservedIsClean(v: Value, origin: Origin)
    requires WellFormed(OnWire(v, origin))
    ensures Observed(OnWire(v, origin)) == Ok(Plain(v)) <==> Clean(v, origin)
    decreases v, 1
  {
    WrittenShape(v);
    if v.Container? {
      ContainerObserved(v, origin);
    } else if v.Obj? {
      var w := OnWire(v, origin);
      assert w == Obj(v.cls, v.version, OnWireEach(v.fields, origin));
      ObjectIsWellFormed(w);
      hide WellFormed, KindOf, Observed, Written, OnWireEach, OnWire;
      ObservedObject(w);
      ListObserved(v.fields, FieldClasses(v.cls), origin);
      WrapIdentity(v.version, 1);
    } else {
      FlatObserved(v, origin);
    }
  }

  lemma PrimObserved(code: byte, x: int, origin: Origin)
    requires KindOf(code).PrimKind? && ElemWritable(KindOf(code).elem, x, false)
    ensures Observed(Prim(code, x)) == Ok(Prim(code, x)) <==> Clean(Prim(code, x), origin)
  {
    KindShapes(code);
    hide KindOf, WrapSigned, FitsSigned;
    ElemObserved(KindOf(code).elem, x, false);
  }

  lemma PairObserved(code: byte, a: int, b: int, origin: Origin)
    requires KindOf(code).PairKind?
    ensures Observed(Pair(code, a, b)) == Ok(Pair(code, a, b)) <==> Clean(Pair(code, a, b), origin)
  {
    KindShapes(code);
    hide KindOf, WrapSigned, FitsSigned;
    WrapIdentity(a, KindOf(code).width1);
    WrapIdentity(b, KindOf(code).width2);
  }

  lemma ArrayObserved(code: byte, xs: seq<int>, origin: Origin)
    requires WellFormed(PrimArray(code, xs))
    ensures Observed(PrimArray(code, xs)) == Ok(PrimArray(code, xs)) <==> Clean(PrimArray(code, xs), origin)
  {
    KindShapes(code);
    hide KindOf, WrapSigned, FitsSigned;
    ElemsObserved(KindOf(code).elem, xs);
  }

  /** What is read of a number on the wire. */
  function ReadBackNumber(d: Decimal): Option<Decimal> {
    ReadNumber(CONTEXT, d.negative, d.coefficient, WrapSigned(-d.exponent, 4))
  }

  /** A number on the wire is read as an equal one exactly if it is clean. */
  lemma NumberObserved(d: Decimal)
    ensures ReadBackNumber(d) == Some(Number(d)) <==> CleanNumber(d)
  {
    hide Fix, Fits, ReadNumber, FitsSigned, ScaleReadable, Strip, Number, WrapSigned;
    var scale := WrapSigned(-d.exponent, 4);
    WrapIdentity(-d.exponent, 4);
    ServerNumberExactly(CONTEXT, d.negative, d.coefficient, scale);
    if d.coefficient == 0 {
      ZerosAreEqual(d, Decimal(d.negative, 0, -scale));
    } else if scale != -d.exponent {
      OtherScaleIsOther(CONTEXT, d, scale);
    }
  }

  lemma ZerosAreEqual(a: Decimal, b: Decimal)
    requires a.coefficient == b.coefficient == 0
    ensures Number(a) == Number(b) && Fits(CONTEXT, Strip(a)) && Fits(CONTEXT, Strip(b))
  {}

  /** A decimal is read back as an equal one exactly if it is clean, whoever wrote it. */
  lemma DecimalObserved(d: Decimal, origin: Origin)
    ensures Observed(OnWire(Dec(d), origin)) == Ok(Dec(Number(d))) <==> Clean(Dec(d), origin)
  {
    hide Fix, Fits, ReadNumber, WrapSigned, FitsSigned, ScaleReadable, CleanNumber;
    if origin.Server? {
      NumberObserved(d);
    } else {
      var n := Normalised(d);
      FixKeepsExactly(CONTEXT, d);
      if Fits(CONTEXT, Strip(d)) {
        NumberObserved(Strip(d));
      } else {
        UnfitIsUnclean(d);
        if ReadBackNumber(n).Some? { ReadFits(CONTEXT, n.negative, n.coefficient, WrapSigned(-n.exponent, 4)); }
      }
    }
  }

  lemma UnfitIsUnclean(d: Decimal)
    requires !Fits(CONTEXT, Strip(d))
    ensures d.coefficient > 0 && !CleanNumber(Strip(d)) && Number(d) == Strip(d)
  {}

  /** Every decimal that the writer accepts is read back as its normalised number, but for the sign of a zero, exactly if
      the scale fits its field and the power of ten can be computed. */
  lemma WrittenDecimalExactly(d: Decimal)
    requires Fix(CONTEXT, d).Some?
    ensures var n := Normalised(d);
      Observed(Written(Dec(d))) == Ok(Dec(Unsigned(n))) <==> FitsSigned(-n.exponent, 4) && ScaleReadable(CONTEXT, -n.exponent)
  {
    hide Fix, Fits, ReadNumber, WrapSigned, FitsSigned, ScaleReadable, Strip;
    var n := Normalised(d);
    FixFits(CONTEXT, d);
    NumberObserved(n);
    WrapIdentity(-n.exponent, 4);
    ZeroFits();
    assert Strip(n) == n;
  }

  /** A number equal to the one a server wrote is read exactly if it needs at most `prec` significant digits and its
      magnitude and scale are in the context's range. */
  lemma ServerDecimalExactly(negative: bool, coefficient: nat, scale: int)
    requires FitsSigned(scale, 4)
    ensures var d := Decimal(negative, coefficient, -scale);
      ReadFlat(TC_DECIMAL, DecimalBytes(negative, coefficient, scale)) == Ok(Dec(Number(d)))
      <==> ScaleReadable(CONTEXT, scale) && Fits(CONTEXT, Strip(d))
  {
    hide Fits, ReadNumber, ReadFlat, DecimalBytes, Strip, ScaleReadable, WrapSigned, FitsSigned, Number;
    WrapIdentity(scale, 4);
    DecimalRead(negative, coefficient, scale);
    ServerNumberExactly(CONTEXT, negative, coefficient, scale);
  }

  /** A negative zero is written with its sign and read back without it, which Python calls equal. */
  lemma NegativeZeroIsRead()
    ensures EncodeFlat(Written(Dec(Decimal(true, 0, 0)))) == DecimalBytes(true, 0, 0)
    ensures Observed(Written(Dec(Decimal(true, 0, 0)))) == Ok(Dec(Decimal(false, 0, 0)))
    ensures Equal(Decimal(true, 0, 0), Decimal(false, 0, 0))
  {
    hide ReadNumber, Fix, DecimalBytes;
    NegativeZeroLosesItsSign(CONTEXT);
    WrapIdentity(0, 4);
    ZeroFits();
  }

  lemma ZeroFits()
    ensures FitsSigned(0, 4)
  {}

  lemma FlatObserved(v: Value, origin: Origin)
    requires WellFormed(OnWire(v, origin)) && !v.Container? && !v.Obj?
    ensures Observed(OnWire(v, origin)) == Ok(Plain(v)) <==> Clean(v, origin)
  {
    hide KindOf, WrapSigned, FitsSigned, UpToNul, CleanElem, Normalised, ReadNumber, CleanNumber;
    match v
    case Prim(code, x) => PrimObserved(code, x, origin);
    case Pair(code, a, b) => PairObserved(code, a, b, origin);
    case Dec(number) => DecimalObserved(number, origin);
    case PrimArray(code, xs) => ArrayObserved(code, xs, origin);
    case Str(utf8) => assert UpToNul(utf8) == utf8 <==> 0 !in utf8;
    case _ =>
  }

  lemma {:induction false} ContainerObserved(v: Value, origin: Origin)
    requires v.Container? && WellFormed(OnWire(v, origin))
    ensures Observed(OnWire(v, origin)) == Ok(Plain(v)) <==> Clean(v, origin)
    decreases v, 0
  {
    WrittenShape(v);
    var k, w := KindOf(v.code), OnWire(v, origin);
    assert w == Container(v.code, v.meta, OnWireEach(v.elems, origin));
    ContainerShape(w);
    hide WellFormed, KindOf, Observed, ObservedEach, Written, OnWire, OnWireEach, DictOf, Hashable, DistinctKeys;
    ObservedContainer(w);
    ListObserved(v.elems, Repeat(k.element, |v.elems|), origin);
    var vs, plain := ObservedEach(w.elems), PlainEach(v.elems);
    if k.perEntry == 2 {
      PlainKeysHash(v.elems);
      if vs.Ok? && DictOf(vs.value).Ok? { DictOfShrinks(vs.value); KeysAreHashable(vs.value); }
      if DictOf(plain) == Ok(plain) { UnchangedIsDistinct(plain); KeysAreHashable(plain); }
      if Clean(v, origin) { DictOfDistinct(plain); }
    }
  }

  lemma PlainKeysHash(elems: seq<Value>)
    ensures forall i :: 0 <= i < |elems| ==> (Hashable(PlainEach(elems)[i]) <==> Hashable(elems[i]))
  {
    forall i | 0 <= i < |elems| ensures Hashable(PlainEach(elems)[i]) <==> Hashable(elems[i]) { PlainHashes(elems[i]); }
  }

  lemma PlainHashes(v: Value)
    ensures Hashable(Plain(v)) <==> Hashable(v)
  {}

  lemma ContainerShape(v: Value)
    requires v.Container? && WellFormed(v)
    ensures var k := KindOf(v.code);
      k.ContainerKind? && |v.elems| % k.perEntry == 0
      && AllWellFormed(v.elems, Repeat(k.element, |v.elems|))
  {
    KindShapes(v.code);
    hide KindOf;
  }

  lemma {:induction false} ListObserved(vs: seq<Value>, classes: seq<Class>, origin: Origin)
    requires AllWellFormed(OnWireEach(vs, origin), classes)
    ensures ObservedEach(OnWireEach(vs, origin)) == Ok(PlainEach(vs)) <==> AllClean(vs, origin)
    decreases vs, 0
  {
    hide WellFormed, KindOf, Observed, Clean, OnWire, Plain;
    if vs != [] {
      var ws := OnWireEach(vs, origin);
      assert ws[1..] == OnWireEach(vs[1..], origin);
      assert PlainEach(vs) == [Plain(vs[0])] + PlainEach(vs[1..]);
      hide OnWireEach;
      ObservedIsClean(vs[0], origin);
      ListObserved(vs[1..], classes[1..], origin);
      CleanStep(vs, origin);
      if Observed(ws[0]).Ok? && ObservedEach(ws[1..]).Ok? {
        SameHeadAndTail(Observed(ws[0]).value, ObservedEach(ws[1..]).value, Plain(vs[0]), PlainEach(vs[1..]));
      }
    }
  }

  lemma SameHeadAndTail<T>(a: T, s: seq<T>, b: T, t: seq<T>)
    ensures [a] + s == [b] + t <==> a == b && s == t
  {
    assert ([a] + s)[1..] == s && ([b] + t)[1..] == t;
    assert ([a] + s)[0] == a && ([b] + t)[0] == b;
  }

  lemma CleanStep(vs: seq<Value>, origin: Origin)
    requires vs != []
    ensures AllClean(vs, origin) <==> Clean(vs[0], origin) && AllClean(vs[1..], origin)
  {
    hide Clean;
    assert forall i :: 1 <= i < |vs| ==> vs[i] == vs[1..][i - 1];
    if !AllClean(vs[1..], origin) {
      var i :| 0 <= i < |vs[1..]| && !Clean(vs[1..][i], origin);
      assert !Clean(vs[i + 1], origin);
    }
  }

  // ---- whatever is observed is the representative of its equals

  predicate IsPlain(v: Value) {
    Plain(v) == v
  }

  predicate AllPlain(vs: seq<Value>) {
    forall i :: 0 <= i < |vs| ==> IsPlain(vs[i])
  }

  lemma {:induction false} ObservedIsPlain(v: Value)
    requires Observed(v).Ok?
    ensures IsPlain(Observed(v).value)
    decreases v, 1
  {
    hide KindOf, WrapSigned, UpToNul, ReadNumber, ObservedEach, ObservedElems, ObservedElem, DictOf, Collect, Number;
    match v
    case Container(code, _, elems) =>
      ObservedEachIsPlain(elems);
      CollectIsPlain(KindOf(code).perEntry, ObservedEach(elems).value);
      AllPlainIsPlainEach(Collect(KindOf(code).perEntry, ObservedEach(elems).value).value);
    case Obj(_, _, fields) =>
      ObservedEachIsPlain(fields);
      AllPlainIsPlainEach(ObservedEach(fields).value);
    case Dec(number) =>
      var scale := WrapSigned(-number.exponent, 4);
      ReadFits(CONTEXT, number.negative, number.coefficient, scale);
      NumberOfNormal(ReadNumber(CONTEXT, number.negative, number.coefficient, scale).value);
    case _ =>
  }

  lemma NumberOfNormal(d: Decimal)
    requires IsNormal(d) && !(d.negative && d.coefficient == 0)
    ensures Number(d) == d
  {}

  lemma AllPlainIsPlainEach(vs: seq<Value>)
    requires AllPlain(vs)
    ensures PlainEach(vs) == vs
  {
    hide PlainEach, Plain;
  }

  lemma {:induction false} ObservedEachIsPlain(vs: seq<Value>)
    requires ObservedEach(vs).Ok?
    ensures AllPlain(ObservedEach(vs).value)
    decreases vs, 0
  {
    hide Observed, IsPlain;
    if vs != [] {
      ObservedIsPlain(vs[0]);
      ObservedEachIsPlain(vs[1..]);
    }
  }

  lemma CollectIsPlain(perEntry: nat, vs: seq<Value>)
    requires AllPlain(vs) && Collect(perEntry, vs).Ok?
    ensures AllPlain(Collect(perEntry, vs).value)
  {
    hide AllPlain, DictOf;
    if perEntry == 2 && |vs| % 2 == 0 { DictOfIsPlain(vs); }
  }

  lemma {:induction false} DictOfIsPlain(pairs: seq<Value>)
    requires |pairs| % 2 == 0 && AllPlain(pairs) && DictOf(pairs).Ok?
    ensures AllPlain(DictOf(pairs).value)
  {
    hide IsPlain, DictOf, DictPut, Hashable;
    if pairs == [] {
      EmptyDict();
    } else {
      var n := |pairs| - 2;
      DictOfStep(pairs);
      assert forall i :: 0 <= i < n ==> pairs[..n][i] == pairs[i];
      DictOfIsPlain(pairs[..n]);
      PutIsPlain(DictOf(pairs[..n]).value, pairs[n], pairs[n + 1]);
    }
  }

  lemma PutIsPlain(kv: seq<Value>, k: Value, v: Value)
    requires |kv| % 2 == 0 && AllPlain(kv) && IsPlain(k) && IsPlain(v)
    ensures AllPlain(DictPut(kv, k, v))
  {
    hide KeyIndex, IsPlain;
  }

  // ---- the law

  /** The value holds an object, and the client remembers the other footer style. */
  predicate StyleClash(v: Value, compact: bool, style: Option<bool>) {
    HasObject(v) && style == Some(!compact)
  }

  /** Written at any position and followed by any bytes, a value is read as what `Observed` says, with the cursor exactly
      behind it; reading fails if an object in it cannot be looked up or has the other footer style. */
  lemma DecodeWritten(registry: Registry, pre: bytes, v: Value, post: bytes, cls: Class, compact: bool, style: Option<bool>)
    requires WellFormed(v) && Accepts(cls, v) && (cls.Typed? ==> KindOf(cls.code) != UnknownKind)
    requires Agrees(registry, v)
    ensures var r := Decode(registry, pre + Encode(v, compact) + post, cls, Cursor(|pre|, style));
      if !Registered(registry, v) || StyleClash(v, compact, style) then r.Err?
      else if Observed(v).Err? then r == Err(Observed(v).error)
      else r == Ok((Observed(v).value,
                    Cursor(|pre| + |Encode(v, compact)|, StyleAfter(style, HasObject(v), compact))))
  {
    hide WellFormed, Encode, Agrees, Registered, Parse, Observed, HasObject, KindOf, Decode;
    AtMiddle(pre, Encode(v, compact), post);
    if style != Some(!compact) {
      DecodeInStyle(registry, pre, v, post, cls, compact, style);
    } else if HasObject(v) {
      OtherStyleIsRefused(registry, pre + Encode(v, compact) + post, v, cls, compact, Cursor(|pre|, style));
      RefusedByBoth(registry, pre + Encode(v, compact) + post, cls, Cursor(|pre|, style));
    } else {
      StyleIsForObjects(v, compact, !compact);
      DecodeInStyle(registry, pre, v, post, cls, !compact, style);
    }
  }

  lemma RefusedByBoth(registry: Registry, buf: bytes, cls: Class, cur: Cursor)
    requires Parse(registry, buf, cls, cur).Err?
    ensures Decode(registry, buf, cls, cur).Err?
  {
    hide Parse;
  }

  lemma DecodeInStyle(registry: Registry, pre: bytes, v: Value, post: bytes, cls: Class, compact: bool, style: Option<bool>)
    requires WellFormed(v) && Accepts(cls, v) && (cls.Typed? ==> KindOf(cls.code) != UnknownKind)
    requires Agrees(registry, v) && style != Some(!compact)
    ensures var r := Decode(registry, pre + Encode(v, compact) + post, cls, Cursor(|pre|, style));
      if !Registered(registry, v) then r.Err?
      else if Observed(v).Err? then r == Err(Observed(v).error)
      else r == Ok((Observed(v).value,
                    Cursor(|pre| + |Encode(v, compact)|, StyleAfter(style, HasObject(v), compact))))
  {
    hide WellFormed, Encode, Agrees, Registered, Parse, Read, Observed, LayoutOf, HasObject, KindOf;
    var bs := Encode(v, compact);
    var buf := pre + bs + post;
    AtMiddle(pre, bs, post);
    ParseBack(registry, buf, v, cls, compact, Cursor(|pre|, style));
    if Registered(registry, v) {
      ReadBack(registry, v, cls, compact);
      assert buf[|pre|..|pre| + |bs|] == bs;
    }
  }

  /** Normalising decimals touches no object. */
  lemma {:induction false} WrittenKeepsObjects(registry: Registry, v: Value)
    ensures Registered(registry, Written(v)) <==> Registered(registry, v)
    ensures Agrees(registry, Written(v)) <==> Agrees(registry, v)
    ensures HasObject(Written(v)) <==> HasObject(v)
    decreases v, 1
  {
    WrittenShape(v);
    hide Written, WrittenEach, Normalised;
    match v
    case Container(_, _, elems) => WrittenEachKeepsObjects(registry, elems);
    case Obj(_, _, fields) => WrittenEachKeepsObjects(registry, fields);
    case _ =>
  }

  lemma {:induction false} WrittenEachKeepsObjects(registry: Registry, vs: seq<Value>)
    ensures AllRegistered(registry, WrittenEach(vs)) <==> AllRegistered(registry, vs)
    ensures AllAgree(registry, WrittenEach(vs)) <==> AllAgree(registry, vs)
    ensures AnyObject(WrittenEach(vs)) <==> AnyObject(vs)
    decreases vs, 0
  {
    var ws := WrittenEach(vs);
    hide Written, WrittenEach, Registered, Agrees, HasObject;
    forall i | 0 <= i < |vs|
      ensures Registered(registry, ws[i]) <==> Registered(registry, vs[i])
      ensures Agrees(registry, ws[i]) <==> Agrees(registry, vs[i])
      ensures HasObject(ws[i]) <==> HasObject(vs[i])
    {
      WrittenKeepsObjects(registry, vs[i]);
    }
    if AnyObject(vs) {
      var i :| 0 <= i < |vs| && HasObject(vs[i]);
      assert HasObject(ws[i]);
    }
  }

  /** An equal value comes back, whoever wrote it, exactly when the value is clean, its objects are registered, and none of
      them is of the other footer style than the client has met before.
      What comes back then is the representative of all equal values, with the cursor right behind it. */
  lemma RoundTripExactly(registry: Registry, pre: bytes, v: Value, post: bytes, cls: Class, compact: bool,
                         style: Option<bool>, origin: Origin)
    requires WellFormed(OnWire(v, origin)) && Accepts(cls, v) && (cls.Typed? ==> KindOf(cls.code) != UnknownKind)
    requires Agrees(registry, v)
    ensures var bs := Encode(OnWire(v, origin), compact);
      var r := Decode(registry, pre + bs + post, cls, Cursor(|pre|, style));
      var readable := Registered(registry, v) && Clean(v, origin) && !StyleClash(v, compact, style);
      && (r.Ok? && EqualValues(r.value.0, v) <==> readable)
      && (readable ==>
            r == Ok((Plain(v), Cursor(|pre| + |bs|, StyleAfter(style, HasObject(v), compact)))))
  {
    WrittenShape(v);
    hide WellFormed, Encode, Agrees, Registered, Decode, Observed, HasObject, KindOf, Clean, Written, Plain;
    WrittenKeepsObjects(registry, v);
    DecodeWritten(registry, pre, OnWire(v, origin), post, cls, compact, style);
    ObservedIsClean(v, origin);
    if Observed(OnWire(v, origin)).Ok? { ObservedIsPlain(OnWire(v, origin)); }
  }

  /** For every parser and every byte string it accepts, the layout has the size of the bytes the
      cursor passed, so the backward read returns exactly those bytes whenever they all exist. */
  lemma LayoutCoversAdvance(registry: Registry, buf: bytes, cls: Class, cur: Cursor)
    requires Parse(registry, buf, cls, cur).Ok?
    ensures var (layout, end) := Parse(registry, buf, cls, cur).value;
      Size(layout) == end.pos - cur.pos > 0
      && ReadBackward(buf, end.pos, Size(layout))
         == (if end.pos <= |buf| then Ok(buf[cur.pos..end.pos]) else Err(BufferTooSmall))
  {}

  // ---- inputs on which the law returns something else

  /** An object without fields is never readable: its schema identifier is 0. */
  lemma EmptySchemaUnreadable(registry: Registry, cls: ClassInfo, version: int)
    requires cls.schema == []
    ensures cls.SchemaIdentifier() == 0 && !Registered(registry, Obj(cls, version, []))
  {
    assert cls.FieldIds() == [];
  }

  /** Two keys that differ only after a NUL collapse into one entry. */
  lemma NulKeysCollapse(v: Value, w: Value)
    requires Observed(v) == Ok(v) && Observed(w) == Ok(w)
    ensures Observed(Container(TC_MAP, 1, [Str([97, 0, 98]), v, Str([97, 0, 99]), w]))
         == Ok(Container(TC_MAP, 1, [Str([97]), w]))
  {
    hide Observed, ObservedEach, UpToNul, KindOf, DictOf, Hashable;
    var a, b, k := Str([97, 0, 98]), Str([97, 0, 99]), Str([97]);
    CutAtNul(98);
    CutAtNul(99);
    NothingObserved();
    ObservedPair(b, w, k, w, []);
    assert [b, w] + [] == [b, w];
    ObservedPair(a, v, k, v, [b, w]);
    assert [a, v] + [b, w] == [a, v, b, w];
    assert [k, v] + ([k, w] + []) == [k, v, k, w];
    TextIsHashable([97]);
    DictOfTwo(k, v, w);
    MapKind();
    ObservedContainer(Container(TC_MAP, 1, [a, v, b, w]));
  }

  lemma MapKind()
    ensures KindOf(TC_MAP) == ContainerKind(CountHint, Any, 2)
  {}

  lemma NothingObserved()
    ensures ObservedEach([]) == Ok([])
  {}

  lemma TextIsHashable(t: bytes)
    ensures Hashable(Str(t))
  {}

  lemma CutAtNul(x: byte)
    ensures UpToNul([97, 0, x]) == [97] && Observed(Str([97, 0, x])) == Ok(Str([97]))
  {
    assert [97, 0, x][1..] == [0, x];
  }

  lemma ObservedPair(a: Value, b: Value, a': Value, b': Value, rest: seq<Value>)
    requires Observed(a) == Ok(a') && Observed(b) == Ok(b') && ObservedEach(rest).Ok?
    ensures ObservedEach([a, b] + rest) == Ok([a', b'] + ObservedEach(rest).value)
  {
    hide Observed;
    assert ([a, b] + rest)[1..] == [b] + rest && ([b] + rest)[1..] == rest;
    assert ([b] + rest)[0] == b && ([a, b] + rest)[0] == a;
    assert ObservedEach([b] + rest) == Ok([b'] + ObservedEach(rest).value);
    assert [a'] + ([b'] + ObservedEach(rest).value) == [a', b'] + ObservedEach(rest).value;
  }

  lemma DictOfTwo(k: Value, v: Value, w: Value)
    requires Hashable(k)
    ensures DictOf([k, v, k, w]) == Ok([k, w])
  {
    hide Hashable;
    assert [k, v, k, w][..2] == [k, v] && [k, v][..0] == [];
    assert DictOf([]) == Ok([]) && KeyIndex([], k) == 0;
    assert DictPut([], k, v) == [k, v];
    assert DictOf([k, v]) == Ok([k, v]);
    assert KeyIndex([k, v], k) == 0;
    assert DictPut([k, v], k, w) == [k, w];
  }
}
