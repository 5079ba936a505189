/** Python decimals as far as the codec uses them: normal forms, rounding in a context, division by a power of ten. */
module Decimals {
  import opened Bytes

  /** A finite decimal number, (-1)^negative * coefficient * 10^exponent. */
  datatype Decimal = Decimal(negative: bool, coefficient: nat, exponent: int)

  /** A decimal context with the default rounding, half to even, and the default traps. */
  datatype Context = Context(prec: nat, emin: int, emax: int)

  const DEFAULT: Context := Context(28, -999999, 999999)

  type ValidContext = c: Context | c.prec >= 1 && c.emin <= 0 <= c.emax witness DEFAULT

  /** The context that is current while values are written and read; it may be any. */
  const CONTEXT: ValidContext

  function Pow10(n: nat): (p: int)
    ensures p >= 1
  {
    if n == 0 then 1 else 10 * Pow10(n - 1)
  }

  /** The number of decimal digits; none for 0. */
  function Digits(c: nat): nat {
    if c == 0 then 0 else 1 + Digits(c / 10)
  }

  // ---- normal forms

  predicate IsNormal(d: Decimal) {
    if d.coefficient == 0 then d.exponent == 0 else d.coefficient % 10 != 0
  }

  /** The number without trailing zeros; a zero keeps its sign. */
  function Strip(d: Decimal): (n: Decimal)
    ensures IsNormal(n) && n.negative == d.negative && n.coefficient <= d.coefficient
    ensures n.coefficient == 0 <==> d.coefficient == 0
    ensures d.coefficient != 0 ==> n.exponent >= d.exponent
    ensures IsNormal(d) ==> n == d
    decreases d.coefficient
  {
    if d.coefficient == 0 then d.(exponent := 0)
    else if d.coefficient % 10 == 0 then Strip(d.(coefficient := d.coefficient / 10, exponent := d.exponent + 1))
    else d
  }

  /** The same sign and the same magnitude. */
  predicate SameNumber(a: Decimal, b: Decimal) {
    a.negative == b.negative
    && if a.exponent >= b.exponent then a.coefficient * Pow10(a.exponent - b.exponent) == b.coefficient
       else a.coefficient == b.coefficient * Pow10(b.exponent - a.exponent)
  }

  lemma {:induction false} StripScaled(negative: bool, c: nat, e: int, k: nat)
    ensures Strip(Decimal(negative, c * Pow10(k), e)) == Strip(Decimal(negative, c, e + k))
    decreases k
  {
    if k == 0 {
      assert c * Pow10(0) == c;
    } else if c == 0 {
      assert c * Pow10(k) == 0;
      StripZero(negative, e, e + k);
    } else {
      assert Pow10(k) == 10 * Pow10(k - 1);
      hide Strip, Pow10;
      StripTen(negative, c, Pow10(k - 1), e);
      StripScaled(negative, c, e + 1, k - 1);
    }
  }

  lemma StripZero(negative: bool, e: int, f: int)
    ensures Strip(Decimal(negative, 0, e)) == Strip(Decimal(negative, 0, f))
  {}

  lemma StripTen(negative: bool, c: nat, p: nat, e: int)
    requires c > 0 && p > 0
    ensures c * p >= 0
    ensures Strip(Decimal(negative, c * (10 * p), e)) == Strip(Decimal(negative, c * p, e + 1))
  {
    TenTimes(c, p);
  }

  lemma TenTimes(c: nat, p: nat)
    ensures c * (10 * p) / 10 == c * p && c * (10 * p) % 10 == 0
    ensures c > 0 && p > 0 ==> c * (10 * p) > 0
  {
    assert c * (10 * p) == 10 * (c * p);
    if c > 0 && p > 0 { MulGe(c, p); }
  }

  lemma {:induction false} StripIsScaled(d: Decimal)
    requires d.coefficient > 0
    ensures var n := Strip(d); d.coefficient == n.coefficient * Pow10(n.exponent - d.exponent)
    decreases d.coefficient
  {
    if d.coefficient % 10 == 0 {
      var e := d.(coefficient := d.coefficient / 10, exponent := d.exponent + 1);
      var n := Strip(d);
      assert n == Strip(e);
      StripIsScaled(e);
      var k := n.exponent - e.exponent;
      assert Pow10(k + 1) == 10 * Pow10(k);
      hide Strip, Pow10;
      TimesTen(n.coefficient, Pow10(k));
    } else {
      assert Pow10(0) == 1;
    }
  }

  lemma TimesTen(c: int, p: int)
    ensures c * (10 * p) == 10 * (c * p)
  {}

  /** Two numbers are the same exactly if their normal forms are. */
  lemma NormalFormIsTheNumber(a: Decimal, b: Decimal)
    ensures SameNumber(a, b) <==> Strip(a) == Strip(b)
  {
    if a.exponent < b.exponent {
      NormalFormOrdered(b, a);
      assert SameNumber(a, b) == SameNumber(b, a);
    } else {
      NormalFormOrdered(a, b);
    }
  }

  lemma NormalFormOrdered(a: Decimal, b: Decimal)
    requires a.exponent >= b.exponent
    ensures SameNumber(a, b) <==> Strip(a) == Strip(b)
  {
    hide Strip, Pow10;
    var k := a.exponent - b.exponent;
    var c: nat := a.coefficient * Pow10(k);
    assert SameNumber(a, b) <==> a.negative == b.negative && c == b.coefficient;
    hide SameNumber;
    StripScaled(a.negative, a.coefficient, b.exponent, k);
    SameExponent(Decimal(a.negative, c, b.exponent), b);
  }

  lemma SameExponent(a: Decimal, b: Decimal)
    requires a.exponent == b.exponent
    ensures Strip(a) == Strip(b) <==> a == b
  {
    if a.coefficient > 0 { StripIsScaled(a); }
    if b.coefficient > 0 { StripIsScaled(b); }
    hide Strip, Pow10;
  }

  function Unsigned(n: Decimal): Decimal {
    if n.coefficient == 0 then n.(negative := false) else n
  }

  /** The one representation that stands for all decimals equal to d. */
  function Number(d: Decimal): (n: Decimal)
    ensures IsNormal(n) && !(n.negative && n.coefficient == 0)
  {
    Unsigned(Strip(d))
  }

  /** Python's `==`: trailing zeros and the sign of a zero do not matter. */
  predicate Equal(a: Decimal, b: Decimal) {
    (a.coefficient == 0 && b.coefficient == 0) || SameNumber(a, b)
  }

  lemma NumberIsEquality(a: Decimal, b: Decimal)
    ensures Number(a) == Number(b) <==> Equal(a, b)
  {
    NormalFormIsTheNumber(a, b);
    hide SameNumber;
  }

  // ---- rounding

  /** c / 10^k, half to even. */
  function HalfEven(c: nat, k: nat): nat {
    var p := Pow10(k);
    var q, r := Quotient(c, p), c % p;
    if 2 * r < p || (2 * r == p && q % 2 == 0) then q else q + 1
  }

  function Quotient(c: nat, p: nat): (q: nat)
    requires p > 0
    ensures c == q * p + c % p && 0 <= c % p < p
  {
    c / p
  }

  function Adjusted(d: Decimal): int {
    d.exponent + Digits(d.coefficient) - 1
  }

  function Etiny(ctx: Context): int {
    ctx.emin - ctx.prec + 1
  }

  /** The lowest exponent the context leaves a number of this magnitude. */
  function LowestExponent(ctx: Context, d: Decimal): int {
    if Adjusted(d) - ctx.prec + 1 > Etiny(ctx) then Adjusted(d) - ctx.prec + 1 else Etiny(ctx)
  }

  /** The result of an operation whose exact result is d, in normal form; `None` is the trapped `Overflow`. */
  function Fix(ctx: Context, d: Decimal): Option<Decimal> {
    var n := Strip(d);
    var low := LowestExponent(ctx, n);
    if n.coefficient == 0 then Some(n)
    else if Adjusted(n) > ctx.emax then None
    else if n.exponent >= low then Some(n)
    else
      var r := Strip(Decimal(n.negative, HalfEven(n.coefficient, low - n.exponent), low));
      if r.coefficient > 0 && Adjusted(r) > ctx.emax then None else Some(r)
  }

  /** A number in normal form that the context holds without rounding: at most `prec` significant digits, neither too
      large nor too small. */
  predicate Fits(ctx: Context, n: Decimal) {
    n.coefficient == 0
    || (Digits(n.coefficient) <= ctx.prec && Adjusted(n) <= ctx.emax && n.exponent >= Etiny(ctx))
  }

  /** Rounding keeps a number exactly if the context holds it. */
  lemma FixKeepsExactly(ctx: Context, d: Decimal)
    ensures Fix(ctx, d) == Some(Strip(d)) <==> Fits(ctx, Strip(d))
  {
    var n := Strip(d);
    var low := LowestExponent(ctx, n);
    if n.coefficient > 0 && n.exponent < low { HalfEvenShrinks(n.coefficient, low - n.exponent); }
  }

  lemma HalfEvenShrinks(c: nat, k: nat)
    requires c > 0 && k > 0
    ensures HalfEven(c, k) < c
  {
    var p := Pow10(k);
    assert p == 10 * Pow10(k - 1);
    var q, r := Quotient(c, p), c % p;
    MulLeBoth(q, 10, p);
  }

  lemma MulLeBoth(q: nat, a: nat, p: nat)
    requires a <= p
    ensures q * a <= q * p
  {}

  lemma {:induction false} DigitsBound(c: nat, n: nat)
    ensures Digits(c) <= n <==> c < Pow10(n)
    decreases n
  {
    if n > 0 && c > 0 { DigitsBound(c / 10, n - 1); }
  }

  lemma {:induction false} Pow10Add(a: nat, b: nat)
    ensures Pow10(a + b) == Pow10(a) * Pow10(b)
    decreases a
  {
    if a > 0 {
      Pow10Add(a - 1, b);
      assert Pow10(a + b) == 10 * (Pow10(a - 1) * Pow10(b));
      Associate(10, Pow10(a - 1), Pow10(b));
    }
  }

  lemma Associate(a: int, b: int, c: int)
    ensures a * (b * c) == a * b * c
  {}

  lemma {:induction false} Pow10Monotone(a: nat, b: nat)
    requires a <= b
    ensures Pow10(a) <= Pow10(b)
    decreases b - a
  {
    if a < b { Pow10Monotone(a, b - 1); }
  }

  lemma HalfEvenBound(c: nat, k: nat, n: nat)
    requires c < Pow10(n + k)
    ensures HalfEven(c, k) <= Pow10(n)
  {
    Pow10Add(n, k);
    var p, q := Pow10(k), Quotient(c, Pow10(k));
    if q >= Pow10(n) { MulOrder(Pow10(n), q, p); }
  }

  lemma MulOrder(a: nat, b: nat, p: nat)
    requires a <= b
    ensures a * p <= b * p
  {}

  /** What rounding returns, the context holds; and rounding again changes nothing. */
  lemma FixFits(ctx: ValidContext, d: Decimal)
    requires Fix(ctx, d).Some?
    ensures var r := Fix(ctx, d).value;
      IsNormal(r) && Fits(ctx, r) && Fix(ctx, r) == Some(r) && r.negative == d.negative
  {
    var n := Strip(d);
    var low := LowestExponent(ctx, n);
    var r := Fix(ctx, d).value;
    if n.coefficient > 0 && n.exponent < low {
      var k, c := low - n.exponent, n.coefficient;
      DigitsBound(c, Digits(c));
      Pow10Monotone(Digits(c), ctx.prec + k);
      HalfEvenBound(c, k, ctx.prec);
      StripBelow(Decimal(n.negative, HalfEven(c, k), low), ctx.prec);
      DigitsBound(r.coefficient, ctx.prec);
    }
    assert Fits(ctx, r);
    FixKeepsExactly(ctx, r);
  }

  lemma StripBelow(d: Decimal, n: nat)
    requires n > 0 && d.coefficient <= Pow10(n)
    ensures Strip(d).coefficient < Pow10(n)
  {
    if d.coefficient == Pow10(n) {
      assert Pow10(n) == 10 * Pow10(n - 1);
      assert Strip(d) == Strip(d.(coefficient := d.coefficient / 10, exponent := d.exponent + 1));
    }
  }

  // ---- what the reader computes

  /** An integer divided by ten to the power of `scale`, then negated if `negative`. `None` stands for a trapped
      signal: the power overflows, or underflows to a zero divisor, or the quotient overflows. Negation drops the sign
      of a zero. */
  function ReadNumber(ctx: Context, negative: bool, integer: nat, scale: int): Option<Decimal> {
    if scale > ctx.emax || scale < Etiny(ctx) then None
    else
      var q := Fix(ctx, Decimal(false, integer, -scale));
      if q.None? then None else Some(Unsigned(q.value.(negative := negative)))
  }

  lemma FixSign(ctx: Context, negative: bool, c: nat, e: int)
    ensures var q := Fix(ctx, Decimal(false, c, e));
      Fix(ctx, Decimal(negative, c, e)) == if q.None? then None else Some(q.value.(negative := negative))
  {
    StripSign(negative, c, e);
    var n := Strip(Decimal(false, c, e));
    var low := LowestExponent(ctx, n);
    if n.exponent < low { StripSign(negative, HalfEven(n.coefficient, low - n.exponent), low); }
  }

  lemma {:induction false} StripSign(negative: bool, c: nat, e: int)
    ensures Strip(Decimal(negative, c, e)) == Strip(Decimal(false, c, e)).(negative := negative)
    decreases c
  {
    if c > 0 && c % 10 == 0 { StripSign(negative, c / 10, e + 1); }
  }

  lemma ReadIsFix(ctx: Context, negative: bool, integer: nat, scale: int)
    requires Etiny(ctx) <= scale <= ctx.emax
    ensures var q := Fix(ctx, Decimal(negative, integer, -scale));
      ReadNumber(ctx, negative, integer, scale) == if q.None? then None else Some(Unsigned(q.value))
  {
    FixSign(ctx, negative, integer, -scale);
  }

  predicate ScaleReadable(ctx: Context, scale: int) {
    Etiny(ctx) <= scale <= ctx.emax
  }

  /** Whatever a server wrote, a number equal to the one it means is read exactly if the power of ten can be computed, at
      most `prec` digits are significant, and the magnitude is in range. */
  lemma ServerNumberExactly(ctx: Context, negative: bool, integer: nat, scale: int)
    ensures var d := Decimal(negative, integer, -scale);
      ReadNumber(ctx, negative, integer, scale) == Some(Number(d)) <==> ScaleReadable(ctx, scale) && Fits(ctx, Strip(d))
  {
    if ScaleReadable(ctx, scale) {
      ReadIsFix(ctx, negative, integer, scale);
      FixKeepsExactly(ctx, Decimal(negative, integer, -scale));
    }
  }

  lemma {:induction false} StripShift(negative: bool, c: nat, e: int, f: int)
    requires c > 0
    ensures Strip(Decimal(negative, c, e)).coefficient == Strip(Decimal(negative, c, f)).coefficient
    ensures Strip(Decimal(negative, c, e)).exponent - e == Strip(Decimal(negative, c, f)).exponent - f
    decreases c
  {
    if c % 10 == 0 { StripShift(negative, c / 10, e + 1, f + 1); }
  }

  /** Under another scale the same digits are never read as an equal number. */
  lemma OtherScaleIsOther(ctx: Context, d: Decimal, scale: int)
    requires d.coefficient > 0 && scale != -d.exponent
    ensures ReadNumber(ctx, d.negative, d.coefficient, scale) != Some(Number(d))
  {
    if ScaleReadable(ctx, scale) {
      var x := Decimal(d.negative, d.coefficient, -scale);
      ReadIsFix(ctx, d.negative, d.coefficient, scale);
      StripShift(d.negative, d.coefficient, d.exponent, -scale);
      FixKeepsOrShrinks(ctx, x);
      hide Fix, Strip;
    }
  }

  lemma FixKeepsOrShrinks(ctx: Context, x: Decimal)
    requires x.coefficient > 0
    ensures var r, n := Fix(ctx, x), Strip(x); r.None? || r == Some(n) || r.value.coefficient < n.coefficient
  {
    var n := Strip(x);
    var low := LowestExponent(ctx, n);
    if n.exponent < low { HalfEvenShrinks(n.coefficient, low - n.exponent); }
    hide HalfEven, LowestExponent, Adjusted, Digits;
  }

  /** What the writer normalised is read back, but for the sign of a zero, exactly if the power of ten can be computed. */
  lemma NormalisedNumberExactly(ctx: ValidContext, d: Decimal)
    requires Fix(ctx, d).Some?
    ensures var n := Fix(ctx, d).value;
      ReadNumber(ctx, n.negative, n.coefficient, -n.exponent) == Some(Unsigned(n)) <==> ScaleReadable(ctx, -n.exponent)
  {
    FixFits(ctx, d);
    var n := Fix(ctx, d).value;
    if ScaleReadable(ctx, -n.exponent) { ReadIsFix(ctx, n.negative, n.coefficient, -n.exponent); }
  }

  /** Whatever is read is in normal form, held by the context, and no negative zero. */
  lemma ReadFits(ctx: ValidContext, negative: bool, integer: nat, scale: int)
    requires ReadNumber(ctx, negative, integer, scale).Some?
    ensures var r := ReadNumber(ctx, negative, integer, scale).value;
      IsNormal(r) && Fits(ctx, r) && !(r.negative && r.coefficient == 0) && Fix(ctx, r) == Some(r)
    ensures ScaleReadable(ctx, scale)
  {
    ReadIsFix(ctx, negative, integer, scale);
    FixFits(ctx, Decimal(negative, integer, -scale));
    FixKeepsExactly(ctx, ReadNumber(ctx, negative, integer, scale).value);
    hide Strip, Digits, HalfEven, LowestExponent;
  }

  // ---- inputs on the other side

  lemma NegativeZeroLosesItsSign(ctx: ValidContext)
    ensures Fix(ctx, Decimal(true, 0, 0)) == Some(Decimal(true, 0, 0))
    ensures ReadNumber(ctx, true, 0, 0) == Some(Decimal(false, 0, 0))
  {}

  /** One digit too many: 10^prec + 1 is written, and read, as 10^prec. */
  lemma TooPreciseIsRounded(ctx: ValidContext)
    requires ctx.prec <= ctx.emax
    ensures Fix(ctx, Decimal(false, Pow10(ctx.prec) + 1, 0)) == Some(Decimal(false, 1, ctx.prec))
    ensures ReadNumber(ctx, false, Pow10(ctx.prec) + 1, 0) == Some(Decimal(false, 1, ctx.prec))
  {
    hide Pow10, Digits, HalfEven, Strip;
    var p, c := ctx.prec, Pow10(ctx.prec) + 1;
    DigitsOfOneMore(p);
    OneMoreRounded(p);
    PowerStripped(p);
    OneDigit(1);
    ReadIsFix(ctx, false, c, 0);
  }

  lemma DigitsOfOneMore(p: nat)
    requires p > 0
    ensures Digits(Pow10(p) + 1) == p + 1
  {
    DigitsBound(Pow10(p) + 1, p);
    DigitsBound(Pow10(p) + 1, p + 1);
    hide Digits;
  }

  lemma OneMoreRounded(p: nat)
    requires p > 0
    ensures (Pow10(p) + 1) % 10 == 1 && HalfEven(Pow10(p) + 1, 1) == Pow10(p - 1)
  {
    assert Pow10(1) == 10 * Pow10(0);
    assert Pow10(p) == 10 * Pow10(p - 1);
    hide Pow10;
  }

  lemma PowerStripped(p: nat)
    requires p > 0
    ensures Strip(Decimal(false, Pow10(p - 1), 1)) == Decimal(false, 1, p)
  {
    StripScaled(false, 1, 1, p - 1);
    assert 1 * Pow10(p - 1) == Pow10(p - 1);
    assert Strip(Decimal(false, 1, p)) == Decimal(false, 1, p);
    hide Strip, Pow10;
  }

  lemma OneDigit(c: nat)
    requires 0 < c < 10
    ensures Digits(c) == 1
  {
    assert Digits(c / 10) == 0;
  }

  /** Ten to the power of a scale far below the range is a zero divisor. */
  lemma TinyScaleIsUnreadable(integer: nat)
    ensures ReadNumber(DEFAULT, false, integer, -2000000) == None
  {}

  /** A subnormal number can be written although the power of ten needed to read it overflows. */
  lemma SubnormalIsUnreadable()
    ensures Fix(DEFAULT, Decimal(false, 1, -1000000)) == Some(Decimal(false, 1, -1000000))
    ensures ReadNumber(DEFAULT, false, 1, 1000000) == None
  {
    OneDigit(1);
  }
}
