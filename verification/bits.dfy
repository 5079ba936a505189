/** Python's `^`, `&` and `>>` on unbounded integers: two's complement with infinitely many sign bits. */
module Bits {
  import opened Bytes

  function Pow2(n: nat): (p: int)
    ensures p >= 1
  {
    if n == 0 then 1 else 2 * Pow2(n - 1)
  }

  ghost function Magnitude(a: int): nat {
    if a >= 0 then a else -a - 1
  }

  function Xor(a: int, b: int): int
    decreases Magnitude(a) + Magnitude(b)
  {
    if (a == 0 || a == -1) && (b == 0 || b == -1) then (if a == b then 0 else -1)
    else (a + b) % 2 + 2 * Xor(a / 2, b / 2)
  }

  function And(a: int, b: int): int
    decreases Magnitude(a) + Magnitude(b)
  {
    if (a == 0 || a == -1) && (b == 0 || b == -1) then (if a == b then a else 0)
    else (a % 2) * (b % 2) + 2 * And(a / 2, b / 2)
  }

  function ShiftRight(a: int, n: nat): int {
    a / Pow2(n)
  }

  lemma ModDouble(a: int, p: int)
    requires p > 0
    ensures a % (2 * p) == a % 2 + 2 * ((a / 2) % p)
  {
    var h := a / 2;
    assert a == 2 * h + a % 2;
    assert h == (h / p) * p + h % p;
    assert a == (h / p) * (2 * p) + (a % 2 + 2 * (h % p));
    ModUnique(a, 2 * p, h / p, a % 2 + 2 * (h % p));
  }

  lemma DivPow2(a: int, p: int)
    requires p > 0
    ensures a / (2 * p) == (a / 2) / p
  {
    ModDouble(a, p);
    var h := a / 2;
    assert a == (a / (2 * p)) * (2 * p) + a % (2 * p);
    assert h == (h / p) * p + h % p;
    assert 2 * p * (a / (2 * p)) == 2 * p * (h / p);
    var x, y := a / (2 * p), h / p;
    assert 2 * p * (x - y) == 0;
    if x > y { MulGe(x - y, 2 * p); }
    if x < y { MulGe(y - x, 2 * p); }
  }

  lemma XorStep(a: int, b: int)
    ensures Xor(a, b) % 2 == (a + b) % 2 && Xor(a, b) / 2 == Xor(a / 2, b / 2)
  {}

  lemma XorFromHalves(a: int, b: int, low: int, high: int)
    requires low == (a + b) % 2 && high == Xor(a / 2, b / 2)
    ensures Xor(a, b) == low + 2 * high
  {}

  /** Bit `k` and above never reach the low `k` bits of an exclusive or. */
  lemma {:induction false} XorLow(a: int, b: int, k: nat)
    ensures Xor(a, b) % Pow2(k) == Xor(a % Pow2(k), b % Pow2(k))
    decreases k
  {
    if k > 0 { XorLowStep(a, b, k, Pow2(k - 1)); }
  }

  lemma {:induction false} XorLowStep(a: int, b: int, k: nat, p: int)
    requires k > 0 && p == Pow2(k - 1)
    ensures Xor(a, b) % (2 * p) == Xor(a % (2 * p), b % (2 * p))
    decreases k, 0
  {
    XorLow(a / 2, b / 2, k - 1);
    XorStep(a, b);
    ModDouble(Xor(a, b), p);
    XorOfRemainders(a, b, p, a % (2 * p), b % (2 * p));
  }

  lemma XorOfRemainders(a: int, b: int, p: int, a': int, b': int)
    requires p > 0 && a' == a % (2 * p) && b' == b % (2 * p)
    ensures Xor(a', b') == (a + b) % 2 + 2 * Xor((a / 2) % p, (b / 2) % p)
  {
    HalfMod(a, p);
    HalfMod(b, p);
    assert (a' + b') % 2 == (a + b) % 2 by { ParityOfSum(a, b, a', b'); }
    XorFromHalves(a', b', (a + b) % 2, Xor((a / 2) % p, (b / 2) % p));
  }

  lemma ParityOfSum(a: int, b: int, a': int, b': int)
    requires a' % 2 == a % 2 && b' % 2 == b % 2
    ensures (a' + b') % 2 == (a + b) % 2
  {}

  lemma HalfMod(a: int, p: int)
    requires p > 0
    ensures (a % (2 * p)) % 2 == a % 2 && (a % (2 * p)) / 2 == (a / 2) % p
  {
    ModDouble(a, p);
  }

  lemma {:induction false} XorBound(a: int, b: int, k: nat)
    requires 0 <= a < Pow2(k) && 0 <= b < Pow2(k)
    ensures 0 <= Xor(a, b) < Pow2(k)
    decreases k
  {
    if k > 0 { XorBound(a / 2, b / 2, k - 1); }
  }

  lemma {:induction false} AndZero(a: int)
    ensures And(a, 0) == 0
    decreases Magnitude(a)
  {
    if a != 0 && a != -1 { AndZero(a / 2); }
  }

  lemma AndFromHalves(a: int, b: int)
    ensures And(a, b) == (a % 2) * (b % 2) + 2 * And(a / 2, b / 2)
  {}

  /** Masking with 2^k - 1 is the remainder modulo 2^k, for negative integers too. */
  lemma {:induction false} AndMask(a: int, k: nat)
    ensures And(a, Pow2(k) - 1) == a % Pow2(k)
    decreases k, 1
  {
    if k == 0 {
      AndZero(a);
    } else {
      AndMaskStep(a, k, Pow2(k - 1));
    }
  }

  lemma {:induction false} AndMaskStep(a: int, k: nat, p: int)
    requires k > 0 && p == Pow2(k - 1)
    ensures And(a, 2 * p - 1) == a % (2 * p)
    decreases k, 0
  {
    hide And, Pow2;
    var m := 2 * p - 1;
    assert m / 2 == p - 1 && m % 2 == 1;
    AndMask(a / 2, k - 1);
    ModDouble(a, p);
    AndFromHalves(a, m);
  }

  lemma Pow2Next(k: nat)
    ensures Pow2(k + 1) == 2 * Pow2(k)
  {}

  lemma SmallXor()
    ensures Pow2(0) == 1 && Xor(0, 1) == 1 && Xor(1, 1) == 0
  {}

  lemma {:induction false} XorTopBit(u: int, k: nat)
    requires 0 <= u < Pow2(k + 1)
    ensures Xor(u, Pow2(k)) == if u < Pow2(k) then u + Pow2(k) else u - Pow2(k)
    decreases k
  {
    hide Xor, Pow2;
    SmallXor();
    Pow2Next(k);
    if k > 0 {
      Pow2Next(k - 1);
      var p := Pow2(k - 1);
      XorTopBit(u / 2, k - 1);
      assert 2 * p / 2 == p;
      XorFromHalves(u, 2 * p, u % 2, Xor(u / 2, p));
    }
  }

  lemma {:induction false} Pow2Add(a: nat, b: nat)
    ensures Pow2(a + b) == Pow2(a) * Pow2(b)
    decreases a
  {
    if a > 0 {
      Pow2Add(a - 1, b);
      assert Pow2(a + b) == 2 * (Pow2(a - 1) * Pow2(b));
    }
  }

  lemma Powers()
    ensures Pow2(8) == 0x100 && Pow2(16) == 0x1_0000
    ensures Pow2(31) == 0x8000_0000 && Pow2(32) == 0x1_0000_0000
  {
    assert Pow2(4) == 16;
    Pow2Add(4, 4);
    Pow2Add(8, 8);
    Pow2Add(16, 16);
    assert Pow2(32) == 2 * Pow2(31);
  }

  // ---- bit lengths

  function BitLength(n: nat): nat {
    if n == 0 then 0 else 1 + BitLength(n / 2)
  }

  lemma {:induction false} BitLengthBounds(n: nat)
    ensures n < Pow2(BitLength(n))
    ensures n > 0 ==> BitLength(n) > 0 && Pow2(BitLength(n) - 1) <= n
  {
    if n > 0 { BitLengthBounds(n / 2); }
  }

  lemma {:induction false} Pow2OfBytes(k: nat)
    ensures Pow2(8 * k) == Pow256(k)
  {
    if k > 0 {
      Pow2OfBytes(k - 1);
      Pow2Add(8, 8 * (k - 1));
      Powers();
    }
  }

  lemma {:induction false} Pow2Monotone(a: nat, b: nat)
    requires a <= b
    ensures Pow2(a) <= Pow2(b)
    decreases b - a
  {
    if a < b { Pow2Monotone(a, b - 1); }
  }
}
