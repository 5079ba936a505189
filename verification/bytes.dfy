/** Little-endian integers of a fixed width, as `int.to_bytes`, `int.from_bytes` and
    the integer fields of a packed `ctypes` structure produce and read them. */
module Bytes {

  datatype Option<+T> = None | Some(value: T)

  type byte = x: int | 0 <= x < 256
  type bytes = seq<byte>

  const MAX_LENGTH: nat := 0x8000_0000

  function Pow256(n: nat): (p: int)
    ensures p >= 1
  {
    if n == 0 then 1 else 256 * Pow256(n - 1)
  }

  /** The low `n` bytes of `v`, least significant first; negative values in two's complement. */
  function ToLE(v: int, n: nat): (b: bytes)
    ensures |b| == n
    decreases n
  {
    if n == 0 then [] else [v % 256] + ToLE(v / 256, n - 1)
  }

  function FromLE(b: bytes): nat {
    if b == [] then 0 else b[0] + 256 * FromLE(b[1..])
  }

  function FromSignedLE(b: bytes): int {
    var u := FromLE(b);
    if 2 * u >= Pow256(|b|) then u - Pow256(|b|) else u
  }

  predicate FitsSigned(v: int, n: nat) {
    -Pow256(n) <= 2 * v < Pow256(n)
  }

  /** What an `n`-byte signed field holds after `v` is assigned to it. */
  function WrapSigned(v: int, n: nat): int {
    var u := v % Pow256(n);
    if 2 * u >= Pow256(n) then u - Pow256(n) else u
  }

  /** `buffer[start:start + n]` as Python clamps it. */
  function Slice(buf: bytes, start: nat, n: nat): (b: bytes)
    ensures |b| <= n
    ensures start + n <= |buf| ==> |b| == n && b == buf[start..start + n]
    ensures start >= |buf| ==> b == []
  {
    if start >= |buf| then []
    else if start + n <= |buf| then buf[start..start + n]
    else buf[start..]
  }

  /** `bs` stands in `buf` at position `pos`. */
  ghost predicate At(buf: bytes, pos: nat, bs: bytes) {
    pos + |bs| <= |buf| && buf[pos..pos + |bs|] == bs
  }

  lemma AtSplit(buf: bytes, pos: nat, a: bytes, b: bytes)
    ensures At(buf, pos, a + b) <==> At(buf, pos, a) && At(buf, pos + |a|, b)
  {
    if At(buf, pos, a + b) {
      var s := buf[pos..pos + |a + b|];
      assert s[..|a|] == a && s[|a|..] == b;
      assert buf[pos..pos + |a|] == s[..|a|];
      assert buf[pos + |a|..pos + |a| + |b|] == s[|a|..];
    }
    if At(buf, pos, a) && At(buf, pos + |a|, b) {
      assert buf[pos..pos + |a + b|] == buf[pos..pos + |a|] + buf[pos + |a|..pos + |a| + |b|];
    }
  }

  lemma SliceOfSlice(buf: bytes, pos: nat, end: nat, off: nat, n: nat)
    requires pos <= end <= |buf| && off + n <= end - pos
    ensures buf[pos..end][off..off + n] == buf[pos + off..pos + off + n]
  {
    var a, b := buf[pos..end][off..off + n], buf[pos + off..pos + off + n];
    forall i | 0 <= i < n ensures a[i] == b[i] {
      assert a[i] == buf[pos..end][off + i] == buf[pos + (off + i)];
      assert b[i] == buf[(pos + off) + i];
    }
  }

  lemma AtSlice(buf: bytes, pos: nat, bs: bytes, off: nat, n: nat)
    requires At(buf, pos, bs) && off + n <= |bs|
    ensures Slice(buf, pos + off, n) == bs[off..off + n]
  {
    SliceOfSlice(buf, pos, pos + |bs|, off, n);
  }

  lemma AtMiddle(pre: bytes, bs: bytes, post: bytes)
    ensures At(pre + bs + post, |pre|, bs)
  {
    assert (pre + bs + post)[|pre|..|pre| + |bs|] == bs;
  }

  lemma ModUnique(v: int, p: int, k: int, r: int)
    requires 0 <= r < p && v == k * p + r
    ensures v % p == r
  {
    var q := v / p;
    assert v == q * p + v % p;
    assert (q - k) * p == r - v % p;
    if q > k { MulGe(q - k, p); }
    if q < k { MulGe(k - q, p); }
  }

  /** A product of sizes. */
  function Times(count: nat, size: nat): nat {
    count * size
  }

  lemma TimesStep(count: nat, size: nat)
    ensures Times(0, size) == 0 && Times(count + 1, size) == size + Times(count, size)
  {}

  lemma MulGe(a: int, p: int)
    requires a >= 1 && p >= 0
    ensures a * p >= p
  {}

  /** A fixed-width write keeps the value modulo the width. */
  lemma {:induction false} FromToLE(v: int, n: nat)
    ensures FromLE(ToLE(v, n)) == v % Pow256(n)
    decreases n
  {
    if n == 0 {
      assert Pow256(0) == 1;
    } else {
      var tail := ToLE(v / 256, n - 1);
      assert ToLE(v, n) == [v % 256] + tail && Pow256(n) == 256 * Pow256(n - 1);
      hide ToLE, Pow256;
      FromToLE(v / 256, n - 1);
      FromLECons(v % 256, tail);
      hide FromLE;
      LowDigit(v, Pow256(n - 1));
    }
  }

  lemma FromLECons(x: byte, b: bytes)
    ensures FromLE([x] + b) == x + 256 * FromLE(b)
  {
    assert ([x] + b)[1..] == b;
  }

  lemma LowDigit(v: int, p: int)
    requires p > 0
    ensures v % (256 * p) == v % 256 + 256 * ((v / 256) % p)
  {
    var r, k := (v / 256) % p, (v / 256) / p;
    assert v / 256 == k * p + r;
    Regroup(k, p);
    ModUnique(v, 256 * p, k, v % 256 + 256 * r);
  }

  lemma Regroup(k: int, p: int)
    ensures 256 * (k * p) == k * (256 * p)
  {}

  lemma ToLECons(x: byte, rest: nat, n: nat)
    ensures ToLE(x + 256 * rest, n + 1) == [x] + ToLE(rest, n)
  {
    assert (x + 256 * rest) % 256 == x && (x + 256 * rest) / 256 == rest;
  }

  lemma {:induction false} ToFromLE(b: bytes)
    ensures ToLE(FromLE(b), |b|) == b
  {
    if b != [] {
      assert b == [b[0]] + b[1..];
      assert FromLE(b) == b[0] + 256 * FromLE(b[1..]);
      ToFromLE(b[1..]);
      hide FromLE, ToLE;
      ToLECons(b[0], FromLE(b[1..]), |b| - 1);
    }
  }

  lemma FromToSignedLE(v: int, n: nat)
    ensures FromSignedLE(ToLE(v, n)) == WrapSigned(v, n)
  {
    FromToLE(v, n);
  }

  /** The wrapped value is the written one exactly when it fits the field. */
  lemma WrapIdentity(v: int, n: nat)
    requires n > 0
    ensures WrapSigned(v, n) == v <==> FitsSigned(v, n)
  {
    var p := Pow256(n);
    if FitsSigned(v, n) {
      if v >= 0 { ModUnique(v, p, 0, v); } else { ModUnique(v, p, -1, v + p); }
    }
  }

  lemma SignedBack(v: int, n: nat)
    requires n > 0 && FitsSigned(v, n)
    ensures FromSignedLE(ToLE(v, n)) == v
  {
    FromToSignedLE(v, n);
    WrapIdentity(v, n);
  }

  lemma OneByte(v: int)
    ensures ToLE(v, 1) == [v % 256]
  {
    assert ToLE(v, 1) == [v % 256] + ToLE(v / 256, 0);
  }

  lemma FromToLENat(v: nat, n: nat)
    requires v < Pow256(n)
    ensures FromLE(ToLE(v, n)) == v
  {
    FromToLE(v, n);
    ModUnique(v, Pow256(n), 0, v);
  }

  lemma Widths()
    ensures Pow256(1) == 0x100 && Pow256(2) == 0x1_0000
    ensures Pow256(4) == 0x1_0000_0000 && Pow256(8) == 0x1_0000_0000_0000_0000
  {
    assert Pow256(2) == 256 * Pow256(1);
    assert Pow256(3) == 256 * Pow256(2);
    assert Pow256(4) == 256 * Pow256(3);
    assert Pow256(5) == 256 * Pow256(4);
    assert Pow256(6) == 256 * Pow256(5);
    assert Pow256(7) == 256 * Pow256(6);
  }
}
