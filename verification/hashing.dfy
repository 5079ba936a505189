/** The 32-bit hashes: Python fallbacks on unbounded integers, their C twins on `int32_t`, and the schema identifier. */
module Hashing {
  import opened Bytes
  import opened Bits

  const TWO32: int := 0x1_0000_0000
  const TWO31: int := 0x8000_0000
  const LONG_MASK: int := 0xffff_ffff
  const MAX_LONG: int := 0x7fff_ffff_ffff_ffff
  const FNV1_OFFSET_BASIS: int := 0x811c_9dc5
  const FNV1_PRIME: int := 0x0100_0193

  /** The signed 32-bit reading of `v`. */
  function Wrap32(v: int): int {
    (v + TWO31) % TWO32 - TWO31
  }

  function IntOverflow(v: int): int {
    And(Xor(v, TWO31), LONG_MASK) - TWO31
  }

  lemma FlipTop(v: int, p: int)
    requires p > 0
    ensures (v + p) % (2 * p) == if v % (2 * p) < p then v % (2 * p) + p else v % (2 * p) - p
  {
    var q := 2 * p;
    var u, k := v % q, v / q;
    assert v == k * q + u;
    if u < p {
      ModUnique(v + p, q, k, u + p);
    } else {
      assert v + p == (k + 1) * q + (u - p);
      ModUnique(v + p, q, k + 1, u - p);
    }
  }

  lemma MaskedXor(v: int, k: nat, p: int)
    requires p == Pow2(k)
    ensures And(Xor(v, p), 2 * p - 1) == (v + p) % (2 * p)
  {
    hide Xor, And, Pow2;
    Pow2Next(k);
    AndMask(Xor(v, p), k + 1);
    XorLow(v, p, k + 1);
    ModUnique(p, 2 * p, 0, p);
    XorTopBit(v % (2 * p), k);
    FlipTop(v, p);
    assert 0 <= v % (2 * p) < 2 * p;
    XorBound(v % (2 * p), p, k + 1);
  }

  /** The bit trick of `int_overflow` is 32-bit wrap-around on every integer. */
  lemma IntOverflowWraps(v: int)
    ensures IntOverflow(v) == Wrap32(v)
  {
    Powers();
    MaskedXor(v, 31, TWO31);
  }

  lemma Wrap32Range(v: int)
    ensures -TWO31 <= Wrap32(v) < TWO31 && Wrap32(v) % TWO32 == v % TWO32
    ensures Wrap32(v) == WrapSigned(v, 4)
  {
    Widths();
  }

  lemma Wrap32Congruent(a: int, b: int)
    requires a % TWO32 == b % TWO32
    ensures Wrap32(a) == Wrap32(b)
  {}

  // ---- base-31 polynomial hashes

  /** The base-31 polynomial over `xs` started from `init`, on unbounded integers. */
  function Poly31(init: int, xs: seq<int>): int {
    if xs == [] then init else 31 * Poly31(init, xs[..|xs| - 1]) + xs[|xs| - 1]
  }

  function SignedByte(b: byte): int {
    if b >= 128 then b - 256 else b
  }

  function SignedBytes(data: bytes): (s: seq<int>)
    ensures |s| == |data|
  {
    seq(|data|, i requires 0 <= i < |data| => SignedByte(data[i]))
  }

  /** The hash of a byte buffer: the polynomial wrapped once, at the end. */
  function BytesHash(data: bytes): int {
    Wrap32(Poly31(1, SignedBytes(data)))
  }

  function StringHash(codePoints: seq<int>): int {
    Wrap32(Poly31(0, codePoints))
  }

  lemma Poly31Step(init: int, xs: seq<int>, x: int)
    ensures Poly31(init, xs + [x]) == 31 * Poly31(init, xs) + x
  {
    assert (xs + [x])[..|xs|] == xs;
  }

  lemma Poly31Prefix(init: int, xs: seq<int>, i: nat)
    requires i < |xs|
    ensures Poly31(init, xs[..i + 1]) == 31 * Poly31(init, xs[..i]) + xs[i]
  {
    assert xs[..i + 1] == xs[..i] + [xs[i]];
    Poly31Step(init, xs[..i], xs[i]);
  }

  function Pow31(n: nat): int {
    if n == 0 then 1 else 31 * Pow31(n - 1)
  }

  /** x[0] * 31^(n-1) + ... + x[n-1], the form in which Java documents its string hash. */
  function WeightedSum(xs: seq<int>): int {
    if xs == [] then 0 else xs[0] * Pow31(|xs| - 1) + WeightedSum(xs[1..])
  }

  lemma {:induction false} PolyIsWeightedSum(init: int, xs: seq<int>)
    ensures Poly31(init, xs) == init * Pow31(|xs|) + WeightedSum(xs)
    decreases |xs|
  {
    if xs == [] {
      assert Pow31(0) == 1;
    } else {
      var n := |xs| - 1;
      PolyIsWeightedSum(init, xs[..n]);
      SumSnoc(xs[..n], xs[n]);
      assert xs == xs[..n] + [xs[n]];
      TimesThirtyOne(init, Pow31(n));
      hide Pow31, WeightedSum;
    }
  }

  lemma TimesThirtyOne(a: int, p: int)
    ensures 31 * (a * p) == a * (31 * p)
  {}

  lemma {:induction false} SumSnoc(xs: seq<int>, x: int)
    ensures WeightedSum(xs + [x]) == 31 * WeightedSum(xs) + x
    decreases |xs|
  {
    if xs == [] {
      assert [] + [x] == [x] && [x][1..] == [];
      assert x * Pow31(0) == x;
    } else {
      SumSnoc(xs[1..], x);
      assert (xs + [x])[1..] == xs[1..] + [x];
      TimesThirtyOne(xs[0], Pow31(|xs| - 1));
    }
  }

  /** The hash of a name is the weighted sum of its characters, that of bytes starts from 1 and takes them signed. */
  lemma HashesAreWeightedSums(codePoints: seq<int>, data: bytes)
    ensures StringHash(codePoints) == Wrap32(WeightedSum(codePoints))
    ensures BytesHash(data) == Wrap32(Pow31(|data|) + WeightedSum(SignedBytes(data)))
  {
    PolyIsWeightedSum(0, codePoints);
    PolyIsWeightedSum(1, SignedBytes(data));
    hide Poly31, WeightedSum, Wrap32, Pow31;
  }

  /** Wrapping after every step, once (Python) or twice (C), keeps the wrapped polynomial. */
  lemma WrapStep(init: int, xs: seq<int>, i: nat, acc: int)
    requires i < |xs| && acc == Wrap32(Poly31(init, xs[..i]))
    ensures IntOverflow(31 * acc + xs[i]) == Wrap32(Poly31(init, xs[..i + 1]))
    ensures Wrap32(Wrap32(31 * acc) + xs[i]) == Wrap32(Poly31(init, xs[..i + 1]))
  {
    Poly31Prefix(init, xs, i);
    var next := 31 * acc + xs[i];
    IntOverflowWraps(next);
    WrapTwice(acc, Poly31(init, xs[..i]), xs[i]);
  }

  lemma WrapTwice(acc: int, poly: int, x: int)
    requires acc == Wrap32(poly)
    ensures Wrap32(31 * acc + x) == Wrap32(31 * poly + x) == Wrap32(Wrap32(31 * acc) + x)
  {
    hide Wrap32;
    Wrap32Range(poly);
    SumCongruent(acc, poly, x);
    Wrap32Congruent(31 * acc + x, 31 * poly + x);
    Wrap32Range(31 * acc);
    AddCongruent(Wrap32(31 * acc), 31 * acc, x);
    Wrap32Congruent(Wrap32(31 * acc) + x, 31 * acc + x);
  }

  lemma AddCongruent(a: int, b: int, x: int)
    requires a % TWO32 == b % TWO32
    ensures (a + x) % TWO32 == (b + x) % TWO32
  {}

  lemma SumCongruent(a: int, b: int, x: int)
    requires a % TWO32 == b % TWO32
    ensures (31 * a + x) % TWO32 == (31 * b + x) % TWO32
  {
    var k := a / TWO32 - b / TWO32;
    assert 31 * a + x == (31 * b + x) + TWO32 * (31 * k);
    AddMultiple(31 * b + x, 31 * k);
  }

  /** `__hashcode_fallback` on a byte buffer: wraps after every byte. */
  method PyBytesHash(data: bytes) returns (result: int)
    ensures result == BytesHash(data)
  {
    ghost var s := SignedBytes(data);
    result := 1;
    for i := 0 to |data|
      invariant result == Wrap32(Poly31(1, s[..i]))
    {
      WrapStep(1, s, i, result);
      result := IntOverflow(31 * result + SignedByte(data[i]));
    }
    assert s[..|data|] == s;
  }

  /** `b_hashcode`: the product and the sum are each `int32_t`. */
  method CBytesHash(data: bytes) returns (res: int)
    ensures res == BytesHash(data)
  {
    ghost var s := SignedBytes(data);
    res := 1;
    for i := 0 to |data|
      invariant res == Wrap32(Poly31(1, s[..i]))
    {
      WrapStep(1, s, i, res);
      res := Wrap32(Wrap32(31 * res) + SignedByte(data[i]));
    }
    assert s[..|data|] == s;
  }

  /** `__hashcode_fallback` on a string: its code points, not its UTF-8 bytes. */
  method PyStringHash(codePoints: seq<int>) returns (result: int)
    ensures result == StringHash(codePoints)
  {
    result := 0;
    for i := 0 to |codePoints|
      invariant result == Wrap32(Poly31(0, codePoints[..i]))
    {
      WrapStep(0, codePoints, i, result);
      result := IntOverflow(31 * result + codePoints[i]);
    }
    assert codePoints[..|codePoints|] == codePoints;
  }

  function LowerAll(codePoints: seq<int>, lower: int -> int): (s: seq<int>)
    ensures |s| == |codePoints|
  {
    seq(|codePoints|, i requires 0 <= i < |codePoints| => lower(codePoints[i]))
  }

  /** `str_hashcode_` with its `lower` switch on: lowercases each character as it goes. */
  method CStringHashLower(codePoints: seq<int>, lower: int -> int) returns (res: int)
    ensures res == StringHash(LowerAll(codePoints, lower))
  {
    ghost var s := LowerAll(codePoints, lower);
    res := 0;
    for i := 0 to |codePoints|
      invariant res == Wrap32(Poly31(0, s[..i]))
    {
      WrapStep(0, s, i, res);
      res := Wrap32(Wrap32(31 * res) + lower(codePoints[i]));
    }
    assert s[..|codePoints|] == s;
  }

  // ---- schema identifier

  /** FNV-1a over an octet stream, in unsigned 32-bit arithmetic. */
  function Fnv1a(octets: bytes): int {
    if octets == [] then FNV1_OFFSET_BASIS
    else Xor(Fnv1a(octets[..|octets| - 1]), octets[|octets| - 1]) * FNV1_PRIME % TWO32
  }

  /** The field identifiers as one stream of little-endian 4-byte words. */
  function FieldIdOctets(ids: seq<int>): bytes {
    if ids == [] then [] else FieldIdOctets(ids[..|ids| - 1]) + ToLE(ids[|ids| - 1], 4)
  }

  function FieldIds(names: seq<seq<int>>, lower: int -> int): (ids: seq<int>)
    ensures |ids| == |names|
  {
    seq(|names|, i requires 0 <= i < |names| => StringHash(LowerAll(names[i], lower)))
  }

  /** The schema identifier of a list of field identifiers; an empty schema has identifier 0. */
  function SchemaId(ids: seq<int>): int {
    if ids == [] then 0 else Wrap32(Fnv1a(FieldIdOctets(ids)))
  }

  lemma Fnv1aStep(octets: bytes, o: byte)
    ensures Fnv1a(octets + [o]) == Xor(Fnv1a(octets), o) * 0x0100_0193 % 0x1_0000_0000
    ensures Fnv1a([]) == 0x811c_9dc5
  {
    assert (octets + [o])[..|octets|] == octets;
  }

  lemma FieldIdOctetsStep(ids: seq<int>, id: int)
    ensures FieldIdOctets(ids + [id]) == FieldIdOctets(ids) + ToLE(id, 4)
  {
    assert (ids + [id])[..|ids|] == ids;
  }

  lemma {:induction false} Fnv1aRange(octets: bytes)
    ensures 0 <= Fnv1a(octets) < TWO32
  {}

  lemma XorCongruent(s: int, h: int, o: int, k: nat)
    requires s % Pow2(k) == h % Pow2(k)
    ensures Xor(s, o) % Pow2(k) == Xor(h, o) % Pow2(k)
  {
    XorLow(s, o, k);
    XorLow(h, o, k);
  }

  /** One exclusive-or and multiplication on any representative of the hash modulo 2^32. */
  lemma MixCongruent(s: int, h: int, o: byte)
    requires s % TWO32 == h && 0 <= h < TWO32
    ensures (Xor(s, o) * FNV1_PRIME) % TWO32 == (Xor(h, o) * FNV1_PRIME) % TWO32
  {
    Powers();
    XorCongruent(s, h, o, 32);
    MulCongruent(Xor(s, o), Xor(h, o));
  }

  lemma MulCongruent(a: int, b: int)
    requires a % TWO32 == b % TWO32
    ensures (a * FNV1_PRIME) % TWO32 == (b * FNV1_PRIME) % TWO32
  {
    var k := a / TWO32 - b / TWO32;
    assert a == b + TWO32 * k;
    assert a * FNV1_PRIME == b * FNV1_PRIME + TWO32 * (k * FNV1_PRIME);
    AddMultiple(b * FNV1_PRIME, k * FNV1_PRIME);
  }

  lemma AddMultiple(a: int, k: int)
    ensures (a + TWO32 * k) % TWO32 == a % TWO32
  {}

  /** The four octets both versions take from a field identifier by shifting and masking. */
  function Octet(id: int, k: nat): int {
    And(ShiftRight(id, 8 * k), 0xff)
  }

  lemma OctetValue(id: int, k: nat, p: int)
    requires p == Pow2(8 * k)
    ensures Octet(id, k) == id / p % 256
  {
    hide And;
    Powers();
    AndMask(id / p, 8);
  }

  lemma FourBytes(id: int)
    ensures ToLE(id, 4) == [id % 256, id / 0x100 % 256, id / 0x1_0000 % 256, id / 0x100_0000 % 256]
  {
    Quotients(id);
    var a, b, c := id / 0x100, id / 0x1_0000, id / 0x100_0000;
    assert ToLE(id, 4) == [id % 256] + ToLE(a, 3);
    assert ToLE(a, 3) == [a % 256] + ToLE(b, 2);
    assert ToLE(b, 2) == [b % 256] + ToLE(c, 1);
    assert ToLE(c, 1) == [c % 256] + ToLE(c / 256, 0);
  }

  lemma Quotients(id: int)
    ensures id / 0x100 / 256 == id / 0x1_0000 && id / 0x1_0000 / 256 == id / 0x100_0000
  {}

  lemma OctetIsByte(id: int)
    ensures ToLE(id, 4) == [Octet(id, 0), Octet(id, 1), Octet(id, 2), Octet(id, 3)]
  {
    assert Pow2(0) == 1;
    hide ToLE, Octet, And, Pow2;
    Powers();
    Pow2Add(16, 8);
    FourBytes(id);
    OctetValue(id, 0, 1);
    OctetValue(id, 1, 0x100);
    OctetValue(id, 2, 0x1_0000);
    OctetValue(id, 3, 0x100_0000);
  }

  /** The hash state after `octets`, in either language's representation. */
  ghost predicate Represents(s: int, octets: bytes) {
    s % TWO32 == Fnv1a(octets)
  }

  /** One step of the hash as each language computes it. */
  function PyMix(s: int, o: int): int {
    IntOverflow(Xor(s, o) * FNV1_PRIME)
  }

  function CMix(s: int, o: int): int {
    Wrap32(Wrap32(Xor(s, o)) * FNV1_PRIME)
  }

  lemma MixStep(s: int, octets: bytes, o: byte)
    requires Represents(s, octets)
    ensures PyMix(s, o) == CMix(s, o) == Wrap32(Fnv1a(octets + [o]))
    ensures Represents(PyMix(s, o), octets + [o])
  {
    var x, h := Xor(s, o), Fnv1a(octets + [o]);
    assert (x * FNV1_PRIME) % TWO32 == h by {
      Fnv1aRange(octets);
      MixCongruent(s, Fnv1a(octets), o);
      Fnv1aStep(octets, o);
    }
    assert 0 <= h < TWO32 by { Fnv1aRange(octets + [o]); }
    ProductsAgree(x, h);
    IntOverflowWraps(x * FNV1_PRIME);
  }

  lemma ProductsAgree(x: int, h: int)
    requires 0 <= h < TWO32 && (x * FNV1_PRIME) % TWO32 == h
    ensures Wrap32(x * FNV1_PRIME) == Wrap32(h) == Wrap32(Wrap32(x) * FNV1_PRIME)
    ensures Wrap32(h) % TWO32 == h
  {
    Wrap32Range(x);
    MulCongruent(Wrap32(x), x);
    Wrap32Congruent(Wrap32(x) * FNV1_PRIME, x * FNV1_PRIME);
    Wrap32Congruent(x * FNV1_PRIME, h);
    Wrap32Range(h);
  }

  lemma MixFour(s: int, seen: bytes, a: byte, b: byte, c: byte, d: byte)
    requires Represents(s, seen)
    ensures PyMix(PyMix(PyMix(PyMix(s, a), b), c), d) == CMix(CMix(CMix(CMix(s, a), b), c), d)
    ensures PyMix(PyMix(PyMix(PyMix(s, a), b), c), d) == Wrap32(Fnv1a(seen + [a, b, c, d]))
    ensures Represents(PyMix(PyMix(PyMix(PyMix(s, a), b), c), d), seen + [a, b, c, d])
  {
    MixStep(s, seen, a);
    var s1 := PyMix(s, a);
    MixStep(s1, seen + [a], b);
    var s2 := PyMix(s1, b);
    MixStep(s2, seen + [a] + [b], c);
    var s3 := PyMix(s2, c);
    MixStep(s3, seen + [a] + [b] + [c], d);
    assert seen + [a] + [b] + [c] + [d] == seen + [a, b, c, d];
  }

  /** The four octets of one field identifier, mixed in order by either language. */
  lemma MixFieldId(s: int, ids: seq<int>, i: nat)
    requires i < |ids| && Represents(s, FieldIdOctets(ids[..i]))
    ensures var id := ids[i];
      var p := PyMix(PyMix(PyMix(PyMix(s, Octet(id, 0)), Octet(id, 1)), Octet(id, 2)), Octet(id, 3));
      p == CMix(CMix(CMix(CMix(s, Octet(id, 0)), Octet(id, 1)), Octet(id, 2)), Octet(id, 3))
      && p == Wrap32(Fnv1a(FieldIdOctets(ids[..i + 1])))
      && Represents(p, FieldIdOctets(ids[..i + 1]))
  {
    var id := ids[i];
    OctetIsByte(id);
    OctetRange(id);
    assert ids[..i + 1] == ids[..i] + [id];
    FieldIdOctetsStep(ids[..i], id);
    MixFour(s, FieldIdOctets(ids[..i]), Octet(id, 0), Octet(id, 1), Octet(id, 2), Octet(id, 3));
  }

  lemma OctetRange(id: int)
    ensures forall k: nat :: 0 <= Octet(id, k) < 256
  {
    Powers();
    forall k: nat ensures 0 <= Octet(id, k) < 256 { AndMask(ShiftRight(id, 8 * k), 8); }
  }

  /** `__schema_id_fallback` on the field names of a schema. */
  method PySchemaId(names: seq<seq<int>>, lower: int -> int) returns (s: int)
    ensures s == SchemaId(FieldIds(names, lower))
  {
    ghost var ids := FieldIds(names, lower);
    s := if names != [] then FNV1_OFFSET_BASIS else 0;
    for i := 0 to |names|
      invariant names != [] ==> Represents(s, FieldIdOctets(ids[..i]))
      invariant i > 0 ==> s == Wrap32(Fnv1a(FieldIdOctets(ids[..i])))
      invariant i == 0 ==> s == if names != [] then FNV1_OFFSET_BASIS else 0
    {
      var id := PyStringHash(LowerAll(names[i], lower));
      MixFieldId(s, ids, i);
      s := PyMix(s, Octet(id, 0));
      s := PyMix(s, Octet(id, 1));
      s := PyMix(s, Octet(id, 2));
      s := PyMix(s, Octet(id, 3));
    }
    assert ids[..|names|] == ids;
  }

  /** `schema_id` in C, started from the offset basis as an `int32_t`. */
  method CSchemaId(names: seq<seq<int>>, lower: int -> int) returns (s: int)
    ensures s == SchemaId(FieldIds(names, lower))
  {
    if names == [] { return 0; }
    ghost var ids := FieldIds(names, lower);
    s := Wrap32(FNV1_OFFSET_BASIS);
    for i := 0 to |names|
      invariant Represents(s, FieldIdOctets(ids[..i]))
      invariant s == Wrap32(Fnv1a(FieldIdOctets(ids[..i])))
    {
      var id := CStringHashLower(names[i], lower);
      MixFieldId(s, ids, i);
      s := CMix(s, Octet(id, 0));
      s := CMix(s, Octet(id, 1));
      s := CMix(s, Octet(id, 2));
      s := CMix(s, Octet(id, 3));
    }
    assert ids[..|names|] == ids;
  }
}
