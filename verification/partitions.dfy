/** From a key's hash code to its partition, and the key hashes that stay wider than 32 bits. */
module Partitions {
  import opened Bytes
  import opened Bits
  import opened Hashing

  const TWO16: int := 0x1_0000
  const TWO64: int := 0x1_0000_0000_0000_0000

  function Abs(x: int): int {
    if x < 0 then -x else x
  }

  /** The partition that `_get_node_by_hashcode` computes before it asserts the range. */
  function Partition(hash: int, parts: int): int
    requires parts > 0
  {
    if And(parts, parts - 1) == 0 then And(Xor(hash, hash % TWO32 / TWO16), parts - 1)
    else Abs(hash / parts)
  }

  lemma {:induction false} AndSelf(a: nat)
    ensures And(a, a) == a
    decreases a
  {
    if a > 0 { AndSelf(a / 2); }
  }

  lemma HalfOfPower(parts: int, k: nat)
    requires parts > 1 && parts == Pow2(k)
    ensures k > 0 && parts / 2 == Pow2(k - 1)
  {}

  /** `parts & (parts - 1) == 0` recognises powers of two, and nothing else. */
  lemma {:induction false} PowerOfTwoTest(parts: int)
    requires parts > 0
    ensures And(parts, parts - 1) == 0 <==> exists k: nat :: parts == Pow2(k)
    decreases parts
  {
    var q := parts / 2;
    if parts == 1 {
      assert Pow2(0) == 1;
      AndZero(1);
    } else if parts % 2 == 1 {
      OddIsNoPower(parts);
      AndSelf(q);
      assert (parts - 1) / 2 == q && (parts - 1) % 2 == 0;
      assert And(parts, parts - 1) == 2 * And(q, q);
    } else {
      PowerOfTwoTest(q);
      assert (parts - 1) / 2 == q - 1 && (parts - 1) % 2 == 1;
      assert And(parts, parts - 1) == 2 * And(q, q - 1);
      if k: nat :| q == Pow2(k) { assert parts == Pow2(k + 1); }
      if k: nat :| parts == Pow2(k) { HalfOfPower(parts, k); }
    }
  }

  lemma OddIsNoPower(parts: int)
    requires parts > 1 && parts % 2 == 1
    ensures forall k: nat :: parts != Pow2(k)
  {
    forall k: nat ensures parts != Pow2(k) {
      if k > 0 { assert Pow2(k) == 2 * Pow2(k - 1); }
    }
  }

  /** With 2^k partitions the partition is the low k bits of the spread hash, so it is always in range. */
  lemma PartitionInRange(hash: int, k: nat)
    ensures 0 <= Partition(hash, Pow2(k)) < Pow2(k)
    ensures Partition(hash, Pow2(k)) == Xor(hash, hash % 0x1_0000_0000 / 0x1_0000) % Pow2(k)
  {
    hide Xor;
    var p, x := Pow2(k), Xor(hash, hash % TWO32 / TWO16);
    AndMask(p, k);
    ModUnique(p, p, 1, 0);
    AndMask(x, k);
    hide And, Pow2;
  }

  lemma {:induction false} CongruentBelow(a: int, b: int, k: nat, n: nat)
    requires k <= n && a % Pow2(n) == b % Pow2(n)
    ensures a % Pow2(k) == b % Pow2(k)
    decreases n - k
  {
    if k < n {
      var p := Pow2(n - 1);
      ModModDouble(a, p);
      ModModDouble(b, p);
      CongruentBelow(a, b, k, n - 1);
    }
  }

  lemma ModModDouble(a: int, p: int)
    requires p > 0
    ensures (a % (2 * p)) % p == a % p
  {
    var m := a % (2 * p);
    assert a == (a / (2 * p)) * (2 * p) + m;
    assert m == (m / p) * p + m % p;
    assert a == (2 * (a / (2 * p)) + m / p) * p + m % p;
    ModUnique(a, p, 2 * (a / (2 * p)) + m / p, m % p);
  }

  /** Up to 2^32 partitions, the partition depends on the hash modulo 2^32 only. */
  lemma PartitionDependsOnLow32(h1: int, h2: int, k: nat)
    requires k <= 32 && h1 % TWO32 == h2 % TWO32
    ensures Partition(h1, Pow2(k)) == Partition(h2, Pow2(k))
  {
    Powers();
    PartitionInRange(h1, k);
    PartitionInRange(h2, k);
    CongruentBelow(h1, h2, k, 32);
    XorCongruent(h1, h2, h1 % TWO32 / TWO16, k);
  }

  lemma WrappedHashRoutesAlike(hash: int, k: nat)
    requires k <= 32
    ensures Partition(hash, Pow2(k)) == Partition(Wrap32(hash), Pow2(k))
  {
    Wrap32Range(hash);
    PartitionDependsOnLow32(hash, Wrap32(hash), k);
  }

  /** For any other number of partitions the range assertion holds only for small hashes. */
  lemma OtherCountsInRangeExactly(hash: int, parts: int)
    requires parts > 0 && And(parts, parts - 1) != 0
    ensures 0 <= Partition(hash, parts) < parts <==> -(parts * (parts - 1)) <= hash < parts * parts
  {
    hide And, Xor;
    QuotientAtLeast(hash, parts, 1 - parts);
    QuotientAtLeast(hash, parts, parts);
    assert parts * (1 - parts) == -(parts * (parts - 1));
  }

  lemma QuotientAtLeast(h: int, p: int, bound: int)
    requires p > 0
    ensures h / p >= bound <==> h >= p * bound
  {
    var q := h / p;
    assert h == p * q + h % p;
    if q >= bound { MulGeBy(q, bound, p); }
    if q <= bound - 1 {
      MulGeBy(bound - 1, q, p);
      assert p * (bound - 1) == p * bound - p;
    }
  }

  lemma MulGeBy(x: int, y: int, p: int)
    requires x >= y && p >= 0
    ensures p * x >= p * y
  {}

  // ---- key hashes

  /** `value ^ (unsigned 64-bit value >> 32)`. */
  function LongHash(v: int): int {
    Xor(v, v % TWO64 / TWO32)
  }

  /** `datetime_hashcode`. */
  function DateHash(v: int): int {
    Xor(And(v, LONG_MASK), v % TWO64 / TWO32)
  }

  /** `DoubleObject.hashcode` on the signed 64-bit pattern: the shift keeps the sign. */
  function DoubleHash(bits: int): int {
    Xor(And(bits, LONG_MASK), bits / TWO32)
  }

  /** `UUIDObject.hashcode` on the 128-bit value. */
  function UuidHash(v: nat): int {
    var hilo := Xor(v / TWO64, v % TWO64);
    Xor(hilo / TWO32, And(hilo, LONG_MASK))
  }

  /** Java's `(int) (v ^ (v >>> 32))`. */
  function JavaLongHash(v: int): int {
    Wrap32(Xor(v % TWO32, v % TWO64 / TWO32))
  }

  lemma {:induction false} XorSymmetric(a: int, b: int)
    ensures Xor(a, b) == Xor(b, a)
    decreases Magnitude(a) + Magnitude(b)
  {
    if !((a == 0 || a == -1) && (b == 0 || b == -1)) { XorSymmetric(a / 2, b / 2); }
  }

  lemma LowWords(v: int)
    ensures (v % TWO64) % TWO32 == v % TWO32
    ensures (v / TWO32) % TWO32 == v % TWO64 / TWO32
  {}

  /** The long, date and double hashes all agree with Java's 32-bit hash modulo 2^32. */
  lemma WideHashesAreJavaHashes(v: int)
    ensures LongHash(v) % TWO32 == JavaLongHash(v) % TWO32
    ensures DateHash(v) % TWO32 == JavaLongHash(v) % TWO32
    ensures DoubleHash(v) % TWO32 == JavaLongHash(v) % TWO32
  {
    hide Xor, And, Pow2;
    Powers();
    var low, high := v % TWO32, v % TWO64 / TWO32;
    AndMask(v, 32);
    LowRemainder(v);
    LowWords(v);
    XorCongruent(v, low, high, 32);
    XorSymmetric(low, v / TWO32);
    XorSymmetric(low, high);
    XorCongruent(v / TWO32, high, low, 32);
    Wrap32Range(Xor(low, high));
  }

  lemma LowRemainder(v: int)
    ensures v % TWO32 % TWO32 == v % TWO32 && 0 <= v % TWO64 / TWO32 < TWO32
    ensures v % TWO64 / TWO32 % TWO32 == v % TWO64 / TWO32
  {}

  /** A UUID hashes like Java's `UUID.hashCode`, the long hash of its two exclusive-ored halves. */
  lemma UuidHashIsJavaHash(v: nat)
    requires v < TWO64 * TWO64
    ensures UuidHash(v) % TWO32 == JavaLongHash(Xor(v / TWO64, v % TWO64)) % TWO32
  {
    Powers();
    Pow2Add(32, 32);
    var hilo := Xor(v / TWO64, v % TWO64);
    XorBound(v / TWO64, v % TWO64, 64);
    AndMask(hilo, 32);
    ModUnique(hilo, TWO64, 0, hilo);
    XorSymmetric(hilo / TWO32, hilo % TWO32);
    Wrap32Range(Xor(hilo % TWO32, hilo / TWO32));
  }

  /** Keys with untruncated hashes therefore go to the partition that Java computes. */
  lemma WideHashesRouteLikeJava(v: int, k: nat)
    requires k <= 32
    ensures Partition(LongHash(v), Pow2(k)) == Partition(JavaLongHash(v), Pow2(k))
    ensures Partition(DateHash(v), Pow2(k)) == Partition(JavaLongHash(v), Pow2(k))
    ensures Partition(DoubleHash(v), Pow2(k)) == Partition(JavaLongHash(v), Pow2(k))
  {
    hide Partition, LongHash, DateHash, DoubleHash, JavaLongHash, Pow2;
    WideHashesAreJavaHashes(v);
    PartitionDependsOnLow32(LongHash(v), JavaLongHash(v), k);
    PartitionDependsOnLow32(DateHash(v), JavaLongHash(v), k);
    PartitionDependsOnLow32(DoubleHash(v), JavaLongHash(v), k);
  }
}
