/** The sign-magnitude form of a decimal's coefficient: big-endian, the top bit of the first byte is the sign. */
module DecimalCodec {
  import opened Bytes
  import opened Bits

  /** `ceil((bit_length + 1) / 8)`: at least one byte, with room for the sign. */
  function MagnitudeLength(coefficient: nat): (n: nat)
    ensures n >= 1
  {
    (BitLength(coefficient) + 8) / 8
  }

  function Reverse(b: bytes): (r: bytes)
    ensures |r| == |b|
  {
    if b == [] then [] else [b[|b| - 1]] + Reverse(b[..|b| - 1])
  }

  /** `data[0] |= 0x80` or `data[0] &= 0x7f`. */
  function WithSign(digits: bytes, negative: bool): (data: bytes)
    requires digits != []
    ensures |data| == |digits|
  {
    [if negative then digits[0] % 128 + 128 else digits[0] % 128] + digits[1..]
  }

  function Magnitude(negative: bool, coefficient: nat): (data: bytes)
    ensures |data| == MagnitudeLength(coefficient)
  {
    WithSign(Reverse(ToLE(coefficient, MagnitudeLength(coefficient))), negative)
  }

  /** The sign bit and the number that the remaining bits spell in base 256. */
  function DecodeMagnitude(data: bytes): (bool, nat)
    requires data != []
  {
    (data[0] >= 128, FromLE(Reverse([data[0] % 128] + data[1..])))
  }

  lemma ReverseSnoc(b: bytes, x: byte)
    ensures Reverse(b + [x]) == [x] + Reverse(b)
  {
    assert (b + [x])[..|b|] == b;
  }

  lemma {:induction false} ReverseCons(x: byte, b: bytes)
    ensures Reverse([x] + b) == Reverse(b) + [x]
  {
    if b == [] {
      assert [x] + b == [x];
    } else {
      var l := |b| - 1;
      ReverseCons(x, b[..l]);
      assert ([x] + b)[..l + 1] == [x] + b[..l];
    }
  }

  lemma {:induction false} ReverseTwice(b: bytes)
    ensures Reverse(Reverse(b)) == b
  {
    if b != [] {
      var l := |b| - 1;
      ReverseTwice(b[..l]);
      ReverseCons(b[l], Reverse(b[..l]));
      assert b == b[..l] + [b[l]];
    }
  }

  lemma {:induction false} ToLESnoc(v: nat, n: nat)
    ensures ToLE(v, n + 1) == ToLE(v, n) + [v / Pow256(n) % 256]
    decreases n
  {
    if n > 0 {
      ToLESnoc(v / 256, n - 1);
      DivPow256(v, n);
    } else {
      assert ToLE(v, 1) == [v % 256] + ToLE(v / 256, 0);
    }
  }

  lemma {:induction false} DivPow256(v: nat, n: nat)
    requires n > 0
    ensures v / Pow256(n) == v / 256 / Pow256(n - 1) == v / Pow256(n - 1) / 256
  {
    var p := Pow256(n - 1);
    DivDiv(v, 256, p);
    DivDiv(v, p, 256);
  }

  lemma DivDiv(v: nat, a: int, b: int)
    requires a > 0 && b > 0
    ensures a * b > 0 && v / (a * b) == v / a / b
  {
    var q := v / a / b;
    var r := v / a % b * a + v % a;
    assert v == (v / a) * a + v % a;
    assert v / a == q * b + v / a % b;
    assert v == q * (a * b) + r;
    assert 0 <= r < a * b by { assert v / a % b <= b - 1; MulLe(v / a % b, b - 1, a); }
    QuotientUnique(v, a * b, q, r);
  }

  lemma MulLe(x: int, y: int, a: int)
    requires x <= y && a >= 0
    ensures x * a <= y * a
  {}

  lemma QuotientUnique(v: int, p: int, k: int, r: int)
    requires 0 <= r < p && v == k * p + r
    ensures v / p == k
  {
    ModUnique(v, p, k, r);
    var q := v / p;
    assert (q - k) * p == 0;
    if q > k { MulGe(q - k, p); }
    if q < k { MulGe(k - q, p); }
  }

  /** The digit loop and the sign fix-up of `from_python_not_null`. */
  method EncodeMagnitude(negative: bool, coefficient: nat) returns (data: bytes)
    ensures data == Magnitude(negative, coefficient)
  {
    hide Pow256, ToLE, Reverse, WithSign;
    var integer := coefficient;
    var length := MagnitudeLength(coefficient);
    data := [];
    NoDigits(coefficient);
    for i := 0 to length
      invariant integer == coefficient / Pow256(i)
      invariant data == Reverse(ToLE(coefficient, i))
    {
      var digit := integer % 0x100;
      integer := integer / 0x100;
      data := [digit] + data;
      ToLESnoc(coefficient, i);
      ReverseSnoc(ToLE(coefficient, i), digit);
      DivPow256(coefficient, i + 1);
    }
    data := WithSign(data, negative);
  }

  lemma NoDigits(v: nat)
    ensures v / Pow256(0) == v && Reverse(ToLE(v, 0)) == []
  {}

  /** The chosen length leaves the top bit free, and no shorter one does. */
  lemma LengthIsMinimal(coefficient: nat)
    ensures var n := MagnitudeLength(coefficient);
      2 * coefficient < Pow256(n) &&
      forall m: nat :: m < n ==> 2 * coefficient >= Pow256(m) || (m == 0 && coefficient == 0)
  {
    var b, n := BitLength(coefficient), MagnitudeLength(coefficient);
    BitLengthBounds(coefficient);
    Pow2Monotone(b + 1, 8 * n);
    Pow2OfBytes(n);
    forall m: nat | m < n
      ensures 2 * coefficient >= Pow256(m) || (m == 0 && coefficient == 0)
    {
      if coefficient > 0 {
        Pow2Monotone(8 * m, b);
        Pow2OfBytes(m);
      }
    }
  }

  lemma {:induction false} TopByteFree(v: nat, n: nat)
    requires n > 0 && 2 * v < Pow256(n)
    ensures ToLE(v, n)[n - 1] < 128
  {
    assert Pow256(n) == 256 * Pow256(n - 1);
    hide Pow256, ToLE;
    ToLESnoc(v, n - 1);
    TopDigit(v, Pow256(n - 1));
  }

  lemma TopDigit(v: nat, p: int)
    requires p >= 1 && 2 * v < 256 * p
    ensures v / p % 256 < 128
  {
    assert v == (v / p) * p + v % p;
    if v / p >= 128 { MulLe(128, v / p, p); }
    if v / p < 0 { MulLe(v / p, -1, p); }
  }

  /** Every sign bit and coefficient come back from their bytes, whatever number they then make. */
  lemma MagnitudeRoundTrip(negative: bool, coefficient: nat)
    ensures DecodeMagnitude(Magnitude(negative, coefficient)) == (negative, coefficient)
  {
    var n := MagnitudeLength(coefficient);
    LengthIsMinimal(coefficient);
    var le := ToLE(coefficient, n);
    var digits := Reverse(le);
    TopByteFree(coefficient, n);
    assert digits[0] == le[n - 1];
    var data := WithSign(digits, negative);
    assert [data[0] % 128] + data[1..] == digits;
    ReverseTwice(le);
    FromToLENat(coefficient, n);
  }
}
