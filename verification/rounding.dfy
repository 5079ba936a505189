/** Rounding in a decimal context, told without its algorithm: the result is a nearest number that the context holds,
    the last kept digit is even at a tie, and the bound from which it overflows. */
module Rounding {
  import opened Bytes
  import opened Decimals

  function Abs(x: int): nat {
    if x < 0 then -x else x
  }

  /** The magnitude in units of 10^e. */
  function Magnitude(d: Decimal, e: int): (u: nat)
    requires e <= d.exponent
  {
    Product(d.coefficient, Pow10(d.exponent - e))
  }

  function Product(a: nat, b: nat): (c: nat)
    ensures c == a * b
  {
    MulNonNegative(a, b);
    a * b
  }

  lemma MulNonNegative(a: nat, b: nat)
    ensures a * b >= 0
  {}

  /** The number in units of 10^e. */
  function Units(d: Decimal, e: int): int
    requires e <= d.exponent
  {
    var u: int := Magnitude(d, e);
    if d.negative then -u else u
  }

  /** How far apart two numbers are, in units of 10^e. */
  function Distance(a: Decimal, b: Decimal, e: int): nat
    requires e <= a.exponent && e <= b.exponent
  {
    Abs(Units(a, e) - Units(b, e))
  }

  // ---- half even

  /** The quotient is off by at most half the divisor, and even if by just half. */
  lemma HalfEvenIsNearest(c: nat, k: nat)
    ensures var p, q := Pow10(k), HalfEven(c, k);
      2 * Abs(c - q * p) <= p && (2 * Abs(c - q * p) == p ==> q % 2 == 0)
  {
    var p := Pow10(k);
    var q, r := Quotient(c, p), c % p;
    OneMore(q, p);
    hide Pow10;
  }

  lemma OneMore(q: int, p: int)
    ensures (q + 1) * p == q * p + p
  {}

  /** Then no other multiple of the divisor is nearer. */
  lemma NearestMultiple(c: int, p: nat, q: int, j: int)
    requires 2 * Abs(c - q * p) <= p
    ensures Abs(c - q * p) <= Abs(c - j * p)
  {
    Difference(q, j, p);
    if j > q { MulGe(j - q, p); } else if j < q { MulGe(q - j, p); }
  }

  lemma Difference(q: int, j: int, p: int)
    ensures q * p - j * p == (q - j) * p && j * p - q * p == (j - q) * p
  {}

  lemma ScaleOrder(a: int, b: int, u: nat)
    requires Abs(a) <= Abs(b)
    ensures Abs(a * u) <= Abs(b * u)
  {
    AbsTimes(a, u);
    AbsTimes(b, u);
    MulOrder(Abs(a), Abs(b), u);
  }

  lemma AbsTimes(a: int, u: nat)
    ensures Abs(a * u) == Abs(a) * u
  {
    if a >= 0 { MulNonNegative(a, u); } else { MulNonNegative(-a, u); assert (-a) * u == -(a * u); }
  }

  // ---- units

  lemma UnitsOfStrip(d: Decimal, e: int)
    requires e <= d.exponent && d.coefficient > 0
    ensures Units(Strip(d), e) == Units(d, e) && Magnitude(Strip(d), e) == Magnitude(d, e)
  {
    hide Strip, Pow10;
    var n := Strip(d);
    StripIsScaled(d);
    Pow10Add(n.exponent - d.exponent, d.exponent - e);
    Associate(n.coefficient, Pow10(n.exponent - d.exponent), Pow10(d.exponent - e));
  }

  lemma ZeroUnits(d: Decimal, e: int)
    requires e <= d.exponent && d.coefficient == 0
    ensures Units(d, e) == 0 && Magnitude(d, e) == 0
  {
    hide Pow10;
  }

  /** In units of 10^e, a coefficient c counted in units of 10^x with e <= x. */
  lemma CountedIn(c: nat, x: int, y: int, e: int)
    requires e <= x <= y
    ensures Product(c, Pow10(y - e)) == c * Pow10(y - x) * Pow10(x - e)
  {
    Pow10Add(y - x, x - e);
    Associate(c, Pow10(y - x), Pow10(x - e));
    hide Pow10;
  }

  lemma LeadingDigit(c: nat)
    requires c > 0
    ensures Digits(c) > 0 && Pow10(Digits(c) - 1) <= c < Pow10(Digits(c))
  {
    DigitsBound(c, Digits(c));
    DigitsBound(c, Digits(c) - 1);
    hide Digits, Pow10;
  }

  // ---- what rounding keeps

  /** A number that is not kept as it is becomes a multiple of the lowest power of ten that leaves it `prec` digits and
      does not fall below the smallest subnormal: a nearest one, and at a tie the even one. */
  lemma RoundedDigits(ctx: ValidContext, d: Decimal) returns (q: nat)
    requires Fix(ctx, d).Some? && !Fits(ctx, Strip(d))
    ensures var n, r := Strip(d), Fix(ctx, d).value;
      var top, tiny := n.exponent + Digits(n.coefficient) - ctx.prec, ctx.emin - ctx.prec + 1;
      var low := if top > tiny then top else tiny;
      && low > n.exponent && r == Strip(Decimal(d.negative, q, low))
      && 2 * Abs(n.coefficient - q * Pow10(low - n.exponent)) <= Pow10(low - n.exponent)
      && (2 * Abs(n.coefficient - q * Pow10(low - n.exponent)) == Pow10(low - n.exponent) ==> q % 2 == 0)
  {
    var n := Strip(d);
    var low := LowestExponent(ctx, n);
    FixKeepsExactly(ctx, d);
    q := HalfEven(n.coefficient, low - n.exponent);
    HalfEvenIsNearest(n.coefficient, low - n.exponent);
    hide HalfEven, Pow10, Digits;
  }

  /** A number held by the context that lies below the last kept digit is no nearer than some multiple. */
  lemma FinerIsSmaller(ctx: ValidContext, n: Decimal, m: Decimal, e: int)
    requires n.coefficient > 0 && m.coefficient > 0 && Fits(ctx, m)
    requires var low := LowestExponent(ctx, n); e <= m.exponent < low && e <= n.exponent < low
    ensures var low := LowestExponent(ctx, n);
      low <= Adjusted(n)
      && Magnitude(m, e) <= Product(Pow10(Adjusted(n) - low) * Pow10(low - n.exponent), Pow10(n.exponent - e))
      && Pow10(Adjusted(n) - low) * Pow10(low - n.exponent) <= n.coefficient
  {
    var low, adj := LowestExponent(ctx, n), Adjusted(n);
    assert low == adj - ctx.prec + 1;
    LeadingDigit(n.coefficient);
    DigitsBound(m.coefficient, ctx.prec);
    Pow10Add(adj - low, low - n.exponent);
    Pow10Add(adj - n.exponent, n.exponent - e);
    Pow10Add(ctx.prec, m.exponent - e);
    Pow10Monotone(ctx.prec + m.exponent - e, adj - e);
    MulOrder(m.coefficient, Pow10(ctx.prec), Pow10(m.exponent - e));
    hide Pow10, Digits, Fits;
  }

  /** The magnitude of the rounded number, in units. */
  lemma RoundedUnits(negative: bool, q: nat, low: int, x: int, e: int)
    requires e <= x < low && e <= Strip(Decimal(negative, q, low)).exponent
    ensures Magnitude(Strip(Decimal(negative, q, low)), e) == Product(q * Pow10(low - x), Pow10(x - e))
  {
    var w := Decimal(negative, q, low);
    CountedIn(q, x, low, e);
    if q > 0 { UnitsOfStrip(w, e); } else { ZeroUnits(Strip(w), e); }
    hide Strip, Pow10;
  }

  /** No number that the context holds is nearer than the result. */
  lemma FixIsNearest(ctx: ValidContext, d: Decimal, m: Decimal, e: int)
    requires Fix(ctx, d).Some? && Fits(ctx, m)
    requires e <= d.exponent && e <= m.exponent && e <= Fix(ctx, d).value.exponent
    ensures Distance(d, Fix(ctx, d).value, e) <= Distance(d, m, e)
  {
    var n, r := Strip(d), Fix(ctx, d).value;
    hide Pow10, Digits, HalfEven, Strip, Magnitude;
    if d.coefficient == 0 {
      ZeroUnits(d, e);
      ZeroUnits(r, e);
    } else {
      UnitsOfStrip(d, e);
      if n.exponent < LowestExponent(ctx, n) {
        Rounded(ctx, n, m, e);
      }
    }
  }

  lemma Rounded(ctx: ValidContext, n: Decimal, m: Decimal, e: int)
    requires n.coefficient > 0 && n.exponent < LowestExponent(ctx, n) && Fits(ctx, m)
    requires var low := LowestExponent(ctx, n);
      var r := Strip(Decimal(n.negative, HalfEven(n.coefficient, low - n.exponent), low));
      e <= n.exponent && e <= m.exponent && e <= r.exponent
    ensures var low := LowestExponent(ctx, n);
      var r := Strip(Decimal(n.negative, HalfEven(n.coefficient, low - n.exponent), low));
      Distance(n, r, e) <= Distance(n, m, e)
  {
    var low := LowestExponent(ctx, n);
    var c, p, u := n.coefficient, Pow10(low - n.exponent), Pow10(n.exponent - e);
    var q := HalfEven(c, low - n.exponent);
    var r := Strip(Decimal(n.negative, q, low));
    HalfEvenIsNearest(c, low - n.exponent);
    hide Pow10, Digits, HalfEven, Strip;
    RoundedUnits(n.negative, q, low, n.exponent, e);
    assert Magnitude(n, e) == c * u && Magnitude(r, e) == q * p * u;
    var j := Reach(ctx, n, m, e);
    hide Magnitude, LowestExponent, Fits;
    NearestUnits(c, p, u, q, j);
  }

  lemma NearestUnits(c: nat, p: nat, u: nat, q: nat, j: nat)
    requires 2 * Abs(c - q * p) <= p
    ensures Abs(c * u - q * p * u) <= Abs(c * u - j * p * u)
  {
    NearestMultiple(c, p, q, j);
    ScaleOrder(c - q * p, c - j * p, u);
    Spread(c, q * p, u);
    Spread(c, j * p, u);
  }

  lemma Spread(a: int, b: int, u: int)
    ensures (a - b) * u == a * u - b * u
  {}

  /** A multiple of the last kept digit that is at least as near as m. */
  lemma Reach(ctx: ValidContext, n: Decimal, m: Decimal, e: int) returns (j: nat)
    requires n.coefficient > 0 && n.exponent < LowestExponent(ctx, n) && Fits(ctx, m)
    requires e <= n.exponent && e <= m.exponent
    ensures var p, u := Pow10(LowestExponent(ctx, n) - n.exponent), Pow10(n.exponent - e);
      Abs(n.coefficient * u - j * p * u) <= Abs(Units(n, e) - Units(m, e))
  {
    hide Pow10, LowestExponent, Fits, Adjusted;
    var low := LowestExponent(ctx, n);
    var c, p, u := n.coefficient, Pow10(low - n.exponent), Pow10(n.exponent - e);
    MulNonNegative(c, u);
    if m.coefficient == 0 || m.negative != n.negative {
      j := 0;
      Nothing(p, u);
      if m.coefficient == 0 { ZeroUnits(m, e); }
    } else if m.exponent >= low {
      j := ReachCoarse(n, m, low, e);
    } else {
      ReachFine(ctx, n, m, e);
      j := Pow10(Adjusted(n) - low);
    }
  }

  lemma Nothing(p: int, u: int)
    ensures 0 * p * u == 0
  {}

  lemma ReachCoarse(n: Decimal, m: Decimal, low: int, e: int) returns (j: nat)
    requires e <= n.exponent < low <= m.exponent
    ensures Magnitude(m, e) == j * Pow10(low - n.exponent) * Pow10(n.exponent - e)
  {
    hide Pow10;
    var p, u := Pow10(low - n.exponent), Pow10(n.exponent - e);
    MulNonNegative(m.coefficient, Pow10(m.exponent - low));
    j := m.coefficient * Pow10(m.exponent - low);
    CountedIn(m.coefficient, low, m.exponent, e);
    Pow10Add(low - n.exponent, n.exponent - e);
    Associate(j, p, u);
  }

  lemma ReachFine(ctx: ValidContext, n: Decimal, m: Decimal, e: int)
    requires n.coefficient > 0 && m.coefficient > 0 && Fits(ctx, m)
    requires var low := LowestExponent(ctx, n); e <= m.exponent < low && e <= n.exponent < low
    ensures var low := LowestExponent(ctx, n);
      low <= Adjusted(n)
      && Magnitude(m, e) <= Pow10(Adjusted(n) - low) * Pow10(low - n.exponent) * Pow10(n.exponent - e)
                         <= n.coefficient * Pow10(n.exponent - e)
  {
    hide Pow10, LowestExponent, Fits, Adjusted;
    FinerIsSmaller(ctx, n, m, e);
    var low := LowestExponent(ctx, n);
    MulNonNegative(Pow10(Adjusted(n) - low), Pow10(low - n.exponent));
    MulOrder(Pow10(Adjusted(n) - low) * Pow10(low - n.exponent), n.coefficient, Pow10(n.exponent - e));
  }

  // ---- overflow

  /** The least magnitude that overflows is half a unit in the last place above the largest number held. */
  predicate TooLarge(ctx: ValidContext, d: Decimal, e: int)
    requires e <= d.exponent && e <= ctx.emax - ctx.prec + 1
  {
    2 * Magnitude(d, e) >= (2 * Pow10(ctx.prec) - 1) * Pow10(ctx.emax - ctx.prec + 1 - e)
  }

  /** Rounding overflows from just that magnitude on. */
  lemma FixOverflowsExactly(ctx: ValidContext, d: Decimal, e: int)
    requires e <= d.exponent && e <= ctx.emax - ctx.prec + 1
    ensures Fix(ctx, d).None? <==> TooLarge(ctx, d, e)
  {
    hide Pow10, Digits, HalfEven, Strip, Magnitude;
    if d.coefficient == 0 {
      ZeroUnits(d, e);
      MulGe(2 * Pow10(ctx.prec) - 1, Pow10(ctx.emax - ctx.prec + 1 - e));
    } else {
      UnitsOfStrip(d, e);
      var n := Strip(d);
      hide Fits, LowestExponent;
      if Adjusted(n) > ctx.emax {
        OverflowAbove(ctx, n, e);
      } else if Adjusted(n) < ctx.emax {
        NoOverflowBelow(ctx, n, e);
        RoundsBelow(ctx, n);
      } else {
        OverflowAtTheTop(ctx, n, e);
      }
    }
  }

  lemma OverflowAbove(ctx: ValidContext, n: Decimal, e: int)
    requires n.coefficient > 0 && Adjusted(n) > ctx.emax && e <= n.exponent && e <= ctx.emax - ctx.prec + 1
    ensures TooLarge(ctx, n, e)
  {
    LeadingDigit(n.coefficient);
    hide Pow10, Digits;
    var K := Pow10(ctx.emax - ctx.prec + 1 - e);
    Pow10Add(Digits(n.coefficient) - 1, n.exponent - e);
    MulOrder(Pow10(Digits(n.coefficient) - 1), n.coefficient, Pow10(n.exponent - e));
    Pow10Monotone(ctx.emax + 1 - e, Adjusted(n) - e);
    Pow10Add(ctx.prec, ctx.emax - ctx.prec + 1 - e);
    Twice(Pow10(ctx.prec), K);
  }

  lemma Twice(a: int, k: nat)
    ensures (2 * a - 1) * k == 2 * (a * k) - k
  {}

  lemma NoOverflowBelow(ctx: ValidContext, n: Decimal, e: int)
    requires n.coefficient > 0 && Adjusted(n) < ctx.emax && e <= n.exponent && e <= ctx.emax - ctx.prec + 1
    ensures !TooLarge(ctx, n, e)
  {
    LeadingDigit(n.coefficient);
    var K, t := Pow10(ctx.emax - ctx.prec + 1 - e), Pow10(ctx.prec - 1);
    assert Pow10(ctx.prec) == 10 * t;
    hide Pow10, Digits;
    Pow10Add(Digits(n.coefficient), n.exponent - e);
    MulLess(n.coefficient, Pow10(Digits(n.coefficient)), Pow10(n.exponent - e));
    Pow10Monotone(Adjusted(n) + 1 - e, ctx.emax - e);
    Pow10Add(ctx.prec - 1, ctx.emax - ctx.prec + 1 - e);
    FarBelow(Magnitude(n, e), t, K);
  }

  lemma FarBelow(m: nat, t: nat, k: nat)
    requires m < t * k && t >= 1
    ensures 2 * m < (2 * (10 * t) - 1) * k
  {
    Twice(10 * t, k);
    MulGe(t, k);
    assert 10 * t * k == 10 * (t * k);
  }

  lemma MulLess(a: int, b: int, u: int)
    requires a < b && u >= 1
    ensures a * u < b * u
  {}

  lemma {:induction false} Pow10Strict(a: nat, b: nat)
    requires Pow10(a) < Pow10(b)
    ensures a < b
  {
    if b <= a { Pow10Monotone(b, a); }
  }

  /** A coefficient below 10^t counted in units of 10^low stays below 10^(low + t). */
  lemma AdjustedBelow(negative: bool, q: nat, low: int, t: nat)
    requires 0 < q < Pow10(t)
    ensures Adjusted(Strip(Decimal(negative, q, low))) < low + t
  {
    hide Strip, Pow10, Digits;
    var r := Strip(Decimal(negative, q, low));
    StripIsScaled(Decimal(negative, q, low));
    LeadingDigit(r.coefficient);
    var s := Pow10(r.exponent - low);
    Pow10Add(Digits(r.coefficient) - 1, r.exponent - low);
    MulOrder(Pow10(Digits(r.coefficient) - 1), r.coefficient, s);
    Pow10Strict(Digits(r.coefficient) - 1 + (r.exponent - low), t);
  }

  lemma RoundsBelow(ctx: ValidContext, n: Decimal)
    requires IsNormal(n) && n.coefficient > 0 && Adjusted(n) < ctx.emax
    ensures Fix(ctx, n).Some?
  {
    var low := LowestExponent(ctx, n);
    var c, D := n.coefficient, Digits(n.coefficient);
    LeadingDigit(c);
    hide Pow10, Digits, HalfEven, Strip;
    if n.exponent < low {
      var k := low - n.exponent;
      var t: nat := if D >= k then D - k else 0;
      Pow10Monotone(D, t + k);
      HalfEvenBound(c, k, t);
      TenTimesMore(t);
      var q := HalfEven(c, k);
      if q > 0 { AdjustedBelow(n.negative, q, low, t + 1); }
    }
  }

  lemma TenTimesMore(t: nat)
    ensures Pow10(t) < Pow10(t + 1)
  {}

  lemma OverflowAtTheTop(ctx: ValidContext, n: Decimal, e: int)
    requires IsNormal(n) && n.coefficient > 0 && Adjusted(n) == ctx.emax && e <= n.exponent && e <= ctx.emax - ctx.prec + 1
    ensures Fix(ctx, n).None? <==> TooLarge(ctx, n, e)
  {
    var k, c := ctx.emax - ctx.prec + 1, n.coefficient;
    assert LowestExponent(ctx, n) == k;
    LeadingDigit(c);
    hide Pow10, Digits, HalfEven, Strip, LowestExponent;
    if n.exponent >= k {
      var K := Pow10(k - e);
      CountedIn(c, k, n.exponent, e);
      Pow10Add(Digits(c), n.exponent - k);
      MulLess(c, Pow10(Digits(c)), Pow10(n.exponent - k));
      Twice(Pow10(ctx.prec), K);
      MulOrder(c * Pow10(n.exponent - k), Pow10(ctx.prec) - 1, K);
      Spread(Pow10(ctx.prec), 1, K);
    } else {
      var p, u := Pow10(k - n.exponent), Pow10(n.exponent - e);
      Pow10Add(k - n.exponent, n.exponent - e);
      TopDigits(ctx, n);
      Cancel(2 * c, (2 * Pow10(ctx.prec) - 1) * p, u);
      Associate(2 * Pow10(ctx.prec) - 1, p, u);
      Associate(2, c, u);
    }
  }

  lemma Cancel(a: int, b: int, u: int)
    requires u >= 1
    ensures a * u >= b * u <==> a >= b
  {
    if a < b { MulLess(a, b, u); } else { MulOrderInt(b, a, u); }
  }

  lemma MulOrderInt(a: int, b: int, u: int)
    requires a <= b && u >= 0
    ensures a * u <= b * u
  {}

  /** At the top of the range the coefficient overflows if it rounds up to 10^prec. */
  lemma TopDigits(ctx: ValidContext, n: Decimal)
    requires IsNormal(n) && n.coefficient > 0 && Adjusted(n) == ctx.emax && n.exponent < ctx.emax - ctx.prec + 1
    ensures var p := Pow10(ctx.emax - ctx.prec + 1 - n.exponent);
      Fix(ctx, n).None? <==> 2 * n.coefficient >= (2 * Pow10(ctx.prec) - 1) * p
  {
    var k, c, P := ctx.emax - ctx.prec + 1, n.coefficient, Pow10(ctx.prec);
    var x := k - n.exponent;
    var p, q := Pow10(x), HalfEven(c, x);
    assert LowestExponent(ctx, n) == k;
    LeadingDigit(c);
    EvenPower(ctx.prec);
    hide Pow10, Digits, HalfEven, Strip, LowestExponent;
    HalfEvenBound(c, x, ctx.prec);
    HalfEvenIsNearest(c, x);
    RoundsToTop(c, P, p, q);
    if q == P {
      TopPower(n.negative, k, ctx.prec);
    } else if q > 0 {
      AdjustedBelow(n.negative, q, k, ctx.prec);
    }
  }

  lemma RoundsToTop(c: nat, P: nat, p: nat, q: nat)
    requires q <= P && P % 2 == 0 && p > 0
    requires 2 * Abs(c - q * p) <= p && (2 * Abs(c - q * p) == p ==> q % 2 == 0)
    ensures q == P <==> 2 * c >= (2 * P - 1) * p
  {
    Twice(P, p);
    if q < P {
      MulOrderInt(q, P - 1, p);
      Spread(P, 1, p);
      if q < P - 1 { MulOrderInt(q, P - 2, p); Spread(P, 2, p); }
    }
  }

  lemma EvenPower(t: nat)
    requires t > 0
    ensures Pow10(t) % 2 == 0
  {
    assert Pow10(t) == 10 * Pow10(t - 1);
  }

  lemma TopPower(negative: bool, k: int, t: nat)
    ensures var r := Strip(Decimal(negative, Pow10(t), k)); r.coefficient > 0 && Adjusted(r) == k + t
  {
    OneDigit(1);
    assert Strip(Decimal(negative, 1, k + t)) == Decimal(negative, 1, k + t);
    hide Strip, Pow10, Digits;
    StripScaled(negative, 1, k, t);
    assert 1 * Pow10(t) == Pow10(t);
  }
}
