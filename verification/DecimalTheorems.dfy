/** The theorems about `BigDecimal`, one operation at a time being an `Op`. */
module DecimalTheorems {
  import opened Rounding
  import opened BigDecimal
  import opened DecimalRounding

  datatype Op = OpAdd | OpSub | OpMultiply | OpDiv

  ghost predicate Defined(op: Op, b: Dec) { op.OpDiv? ==> Value(b) != 0.0 }

  /** The mathematical result. */
  ghost function Exact(op: Op, a: Dec, b: Dec): real
    requires Defined(op, b)
  {
    match op
    case OpAdd => Value(a) + Value(b)
    case OpSub => Value(a) - Value(b)
    case OpMultiply => Value(a) * Value(b)
    case OpDiv => Value(a) / Value(b)
  }

  ghost function Unscaled(op: Op, a: Dec, b: Dec): Result<Dec> {
    match op
    case OpAdd => Add(a, b)
    case OpSub => Sub(a, b)
    case OpMultiply => Multiply(a, b)
    case OpDiv => Div(a, b)
  }

  ghost function Scaled(op: Op, a: Dec, b: Dec, p: Precision): Result<Dec> {
    match op
    case OpAdd => AddScaled(a, b, p)
    case OpSub => SubScaled(a, b, p)
    case OpMultiply => MultiplyScaled(a, b, p)
    case OpDiv => DivScaled(a, b, p)
  }

  /** What the `mpd` function of the operation returns in a context. */
  ghost function Mpd(op: Op, a: Dec, b: Dec, ctx: Context): (Dec, Status) {
    match op
    case OpAdd => MpdAdd(a, b, ctx)
    case OpSub => MpdSub(a, b, ctx)
    case OpMultiply => MpdMul(a, b, ctx)
    case OpDiv => MpdDiv(a, b, ctx)
  }

  lemma ZeroCoefficient(b: Dec)
    ensures Value(b) == 0.0 <==> b.coef == 0
  {
    if b.coef == 0 {
      ZeroValue(b.exp);
    } else {
      ValueNonZero(b);
    }
  }

  /** Without a condition other than rounding, the operation is defined and its result is a first rounding. */
  lemma MpdRounds(op: Op, a: Dec, b: Dec, ctx: Context)
    requires !Mpd(op, a, b, ctx).1.other
    ensures Defined(op, b)
    ensures FirstRounding(Exact(op, a, b), Mpd(op, a, b, ctx).0, ctx.round)
  {
    hide Finalize, FirstRounding, Value, ExactSum, InRange, RoundToPrecision;
    ZeroCoefficient(b);
    match op {
      case OpAdd =>
        SumValue(a, b);
        FinalizeRounds(ExactSum(a, b), ctx);
      case OpSub =>
        DifferenceValue(a, b);
        FinalizeRounds(ExactSum(a, Negated(b)), ctx);
      case OpMultiply =>
        ProductValue(a, b);
        FinalizeRounds(ExactProduct(a, b), ctx);
        assert Exact(op, a, b) == Value(ExactProduct(a, b));
        assert Mpd(op, a, b, ctx) == Finalize(ExactProduct(a, b), ctx);
      case OpDiv =>
        DivRounds(a, b, ctx);
    }
  }

  // ---- unscaled operations -----------------------------------------------------------------------

  lemma NotInexactIsExact(op: Op, a: Dec, b: Dec, ctx: Context)
    requires var s := Mpd(op, a, b, ctx).1; !s.other && !s.inexact
    ensures Defined(op, b) && Value(Mpd(op, a, b, ctx).0) == Exact(op, a, b)
  {
    hide Value, ExactSum, InRange, RoundToPrecision;
    ZeroCoefficient(b);
    match op {
      case OpAdd => SumValue(a, b);
      case OpSub => DifferenceValue(a, b);
      case OpMultiply => ProductValue(a, b);
      case OpDiv =>
        ZeroCoefficient(a);
        ZeroValue(a.exp - b.exp);
        ZeroQuotient(Value(b));
    }
  }

  lemma ZeroQuotient(y: real)
    ensures y != 0.0 ==> 0.0 / y == 0.0
  {
  }

  /** `Add`, `Sub`, `Multiply` and `Div` without a precision return the exact mathematical result, in at most 99
      digits, or throw. */
  lemma UnscaledIsExact(op: Op, a: Dec, b: Dec)
    requires Unscaled(op, a, b).Ok?
    ensures Defined(op, b) && Value(Unscaled(op, a, b).value) == Exact(op, a, b)
    ensures Fits(Unscaled(op, a, b).value.coef)
  {
    hide Value, ExactSum, InRange, RoundToPrecision, Finalize;
    assert Unscaled(op, a, b) == Checked(Mpd(op, a, b, DefaultContext), false);
    NotInexactIsExact(op, a, b, DefaultContext);
    MpdRounds(op, a, b, DefaultContext);
  }

  /** They go through exactly when the exact coefficient has at most 99 digits and the exponent is in range. */
  lemma UnscaledGoesThrough(op: Op, a: Dec, b: Dec)
    requires !op.OpDiv?
    ensures var exact := match op
                         case OpAdd => ExactSum(a, b)
                         case OpSub => ExactSum(a, Negated(b))
                         case _ => ExactProduct(a, b);
            Unscaled(op, a, b).Ok? <==> Fits(exact.coef) && InRange(exact, DefaultContext)
  {
    hide Value, ExactSum, InRange, RoundToPrecision, Fits;
  }

  // ---- numbers with at most 99 digits ------------------------------------------------------------

  ghost predicate Representable(x: real) {
    exists d: Dec :: Fits(d.coef) && Value(d) == x
  }

  lemma LeadingNotAbove(d: Dec, e: int)
    requires Fits(d.coef) && IsLeading(Value(d), e)
    ensures e <= d.exp
  {
    hide Pow10, TenTo, Value, Units;
    if e > d.exp {
      var k, c := e - d.exp, Abs(d.coef as real);
      CountInLargerUnit(Value(d), d.exp, k);
      CountInOwnUnit(d.coef, d.exp);
      UnitsOfAbs(Value(d), e);
      TenToIsPow10(MAX_PREC - 1);
      AbsOver(d.coef as real, TenTo(k));
      OverAtLeast(if d.coef < 0 then -d.coef else d.coef, TenTo(MAX_PREC - 1), TenTo(k));
      TenToGrows(MAX_PREC);
      TenToGrows(k);
      TimesTen(TenTo(MAX_PREC - 1), TenTo(MAX_PREC - 1), TenTo(k));
    }
  }

  lemma OverAtLeast(c: int, low: int, k: int)
    requires k > 0 && Over(c as real, k) >= low as real
    ensures c >= low * k
  {
    Scale(low as real, c as real, k as real);
    RealProduct(low, k);
  }

  /** A number with at most 99 digits is not changed by rounding to 99 digits. */
  lemma RepresentableIsKept(d: Dec, mode: RoundType)
    requires Fits(d.coef)
    ensures Value(RoundToPrecision(Value(d), mode)) == Value(d)
  {
    hide Pow10, TenTo, Value, Units, Round, Carried, IsLeading;
    if Value(d) == 0.0 {
      ZeroValue(0);
    } else {
      var e := Leading(Value(d));
      LeadingNotAbove(d, e);
      CountInSmallerUnit(d.coef, e, d.exp - e);
      var n := d.coef * TenTo(d.exp - e);
      RoundInteger(n, mode);
      LeadingRounds(Value(d), e, mode);
      AtLowerExponent(d, e);
    }
  }

  lemma AtLowerExponent(d: Dec, e: int)
    requires e <= d.exp
    ensures Value(Dec(d.coef * TenTo(d.exp - e), e)) == Value(d)
  {
    CoefAtValue(d, e);
  }

  lemma MpdKeepsRepresentable(op: Op, a: Dec, b: Dec, ctx: Context)
    requires Defined(op, b) && Representable(Exact(op, a, b))
    ensures Value(Mpd(op, a, b, ctx).0) == Exact(op, a, b)
  {
    hide Value, ExactSum, InRange, RoundToPrecision;
    var d: Dec :| Fits(d.coef) && Value(d) == Exact(op, a, b);
    RepresentableIsKept(d, ctx.round);
    ZeroCoefficient(b);
    match op {
      case OpAdd => SumValue(a, b);
      case OpSub => DifferenceValue(a, b);
      case OpMultiply => ProductValue(a, b);
      case OpDiv =>
        ZeroCoefficient(a);
        ZeroValue(a.exp - b.exp);
        ZeroQuotient(Value(b));
    }
  }

  /** `Div` without a precision goes through exactly when the divisor is not zero, the quotient has at most 99
      digits and its exponent is in range. */
  lemma DivGoesThrough(a: Dec, b: Dec)
    ensures Div(a, b).Ok? <==>
              b.coef != 0 && Value(b) != 0.0 && Representable(Value(a) / Value(b)) &&
              InRange(MpdDiv(a, b, DefaultContext).0, DefaultContext)
  {
    hide Value, InRange, RoundToPrecision;
    ZeroCoefficient(b);
    if Div(a, b).Ok? {
      UnscaledIsExact(OpDiv, a, b);
    }
    if b.coef != 0 && Representable(Value(a) / Value(b)) {
      MpdKeepsRepresentable(OpDiv, a, b, DefaultContext);
    }
  }

  // ---- scaled operations -------------------------------------------------------------------------

  lemma ScaledParts(op: Op, a: Dec, b: Dec, p: Precision)
    requires Scaled(op, a, b, p).Ok?
    ensures !Mpd(op, a, b, p.ctx).1.other
    ensures Scaled(op, a, b, p) == SetScale(Mpd(op, a, b, p.ctx).0, p.scale, p.ctx.round)
  {
    hide Value, InRange, RoundToPrecision, Finalize, SetScale;
  }

  lemma ScaledIsRescaled(op: Op, a: Dec, b: Dec, p: Precision)
    requires !Mpd(op, a, b, p.ctx).1.other
    ensures Scaled(op, a, b, p) == SetScale(Mpd(op, a, b, p.ctx).0, p.scale, p.ctx.round)
  {
    hide Value, InRange, RoundToPrecision, Finalize, SetScale;
  }

  /** In the five directed modes and in 05up, `Add`, `Sub`, `Multiply` and `Div` with a precision return the exact
      result rounded once to the scale, although they round to 99 digits on the way. */
  lemma DirectedScaledRoundsOnce(op: Op, a: Dec, b: Dec, p: Precision)
    requires Scaled(op, a, b, p).Ok? && !IsHalfMode(p.ctx.round)
    ensures Defined(op, b)
    ensures Value(Scaled(op, a, b, p).value) == RoundToScale(Exact(op, a, b), p.scale, p.ctx.round)
    ensures Fits(Scaled(op, a, b, p).value.coef)
  {
    hide Value, Mpd, Exact, FirstRounding, SetScale, RoundToScale;
    ScaledParts(op, a, b, p);
    MpdRounds(op, a, b, p.ctx);
    var r := Mpd(op, a, b, p.ctx).0;
    DirectedRescale(Exact(op, a, b), r, p.scale, p.ctx.round);
    RescaledValue(r, p.scale, p.ctx.round);
  }

  /** And they return exactly when nothing but rounding was signalled on the way, the scale is one that `SetScale`
      takes, and the exact result rounded once to it has at most 99 digits and an exponent in range. */
  lemma DirectedScaledGoesThrough(op: Op, a: Dec, b: Dec, p: Precision)
    requires !IsHalfMode(p.ctx.round) && !Mpd(op, a, b, p.ctx).1.other
    ensures Defined(op, b)
    ensures var r := Dec(Round(Units(Exact(op, a, b), -p.scale), p.ctx.round), -p.scale);
            Scaled(op, a, b, p).Ok? <==>
              && p.scale < MAX_PREC && SSGX_MIN_EXP <= -p.scale <= SSGX_MAX_EXP
              && Fits(r.coef) && InRange(r, DefaultContext.(round := p.ctx.round))
  {
    hide Value, Mpd, Exact, FirstRounding, InRange, Fits, Units, Round;
    MpdRounds(op, a, b, p.ctx);
    var m := Mpd(op, a, b, p.ctx).0;
    ScaledIsRescaled(op, a, b, p);
    if Scaled(op, a, b, p).Ok? {
      DirectedRescale(Exact(op, a, b), m, p.scale, p.ctx.round);
      RescaledValue(m, p.scale, p.ctx.round);
      SameMultiple(Round(Units(Value(m), -p.scale), p.ctx.round),
                   Round(Units(Exact(op, a, b), -p.scale), p.ctx.round), -p.scale);
    } else if Fits(Round(Units(Exact(op, a, b), -p.scale), p.ctx.round)) {
      RescaleAgrees(Exact(op, a, b), m, p.scale, p.ctx.round);
    }
  }

  /** In the half modes they do so if and only if the first rounding did not move the result onto a tie of the
      second that is then broken away from the exact result. */
  lemma HalfScaledRoundsOnce(op: Op, a: Dec, b: Dec, p: Precision)
    requires Scaled(op, a, b, p).Ok? && IsHalfMode(p.ctx.round)
    ensures Defined(op, b)
    ensures Value(Scaled(op, a, b, p).value) == RoundToScale(Exact(op, a, b), p.scale, p.ctx.round)
            <==> !WrongTie(Exact(op, a, b), Value(Mpd(op, a, b, p.ctx).0), p.scale, p.ctx.round)
    ensures Fits(Scaled(op, a, b, p).value.coef)
  {
    hide Value, Mpd, Exact, FirstRounding, SetScale, RoundToScale, WrongTie;
    ScaledParts(op, a, b, p);
    MpdRounds(op, a, b, p.ctx);
    RescaledValue(Mpd(op, a, b, p.ctx).0, p.scale, p.ctx.round);
    HalfRescale(Exact(op, a, b), Mpd(op, a, b, p.ctx).0, p.scale, p.ctx.round);
  }

  /** And they return exactly when nothing but rounding was signalled on the way, the scale is one that `SetScale`
      takes, and the exact result rounded once to it has at most 99 digits and an exponent in range; after a wrong tie
      it is the first rounding instead of the exact result that counts. */
  lemma HalfScaledGoesThrough(op: Op, a: Dec, b: Dec, p: Precision)
    requires IsHalfMode(p.ctx.round) && !Mpd(op, a, b, p.ctx).1.other
    ensures Defined(op, b)
    ensures var x, v := Exact(op, a, b), Value(Mpd(op, a, b, p.ctx).0);
            var counts := if WrongTie(x, v, p.scale, p.ctx.round) then v else x;
            var r := Dec(Round(Units(counts, -p.scale), p.ctx.round), -p.scale);
            Scaled(op, a, b, p).Ok? <==>
              && p.scale < MAX_PREC && SSGX_MIN_EXP <= -p.scale <= SSGX_MAX_EXP
              && Fits(r.coef) && InRange(r, DefaultContext.(round := p.ctx.round))
  {
    hide Value, Mpd, Exact, FirstRounding, InRange, Fits, Units, Round, WrongTie;
    MpdRounds(op, a, b, p.ctx);
    var m, x := Mpd(op, a, b, p.ctx).0, Exact(op, a, b);
    ScaledIsRescaled(op, a, b, p);
    if !WrongTie(x, Value(m), p.scale, p.ctx.round) {
      if Scaled(op, a, b, p).Ok? {
        HalfRescale(x, m, p.scale, p.ctx.round);
        RescaledValue(m, p.scale, p.ctx.round);
        SameMultiple(Round(Units(Value(m), -p.scale), p.ctx.round), Round(Units(x, -p.scale), p.ctx.round), -p.scale);
      } else if Fits(Round(Units(x, -p.scale), p.ctx.round)) {
        RescaleAgrees(x, m, p.scale, p.ctx.round);
      }
    }
  }

  lemma UnitDistance(x: real, n: int, e: int)
    requires Abs(n as real - Units(x, e)) <= 0.5
    ensures Abs(Value(Dec(n, e)) - x) <= 0.5 * Pow10(e)
  {
    hide Pow10;
    assert x == Units(x, e) * Pow10(e);
    ScaledDistance(n as real, Units(x, e), Pow10(e));
  }

  lemma ScaledDistance(a: real, b: real, p: real)
    requires Abs(a - b) <= 0.5 && p > 0.0
    ensures Abs(a * p - b * p) <= 0.5 * p
  {
    if a >= b {
      HalfTimes(a - b, p);
      assert (a - b) * p == a * p - b * p;
    } else {
      HalfTimes(b - a, p);
      assert (b - a) * p == b * p - a * p;
    }
  }

  lemma HalfTimes(d: real, p: real)
    requires 0.0 <= d <= 0.5 && p > 0.0
    ensures 0.0 <= d * p <= 0.5 * p
  {
  }

  /** In the half modes, whenever the exact result has at most 99 digits, the scaled result is the exact result
      rounded once, hence within half a unit of its last place. */
  lemma HalfScaledWithinHalfUnit(op: Op, a: Dec, b: Dec, p: Precision)
    requires Scaled(op, a, b, p).Ok? && IsHalfMode(p.ctx.round)
    requires Defined(op, b) && Representable(Exact(op, a, b))
    ensures Value(Scaled(op, a, b, p).value) == RoundToScale(Exact(op, a, b), p.scale, p.ctx.round)
    ensures Abs(Value(Scaled(op, a, b, p).value) - Exact(op, a, b)) <= 0.5 * Pow10(-p.scale)
  {
    hide Pow10, Value, Units, Round, Mpd, Exact, SetScale, Abs;
    ScaledParts(op, a, b, p);
    MpdKeepsRepresentable(op, a, b, p.ctx);
    RescaledValue(Mpd(op, a, b, p.ctx).0, p.scale, p.ctx.round);
    var u := Units(Exact(op, a, b), -p.scale);
    RoundClose(u, p.ctx.round);
    UnitDistance(Exact(op, a, b), Round(u, p.ctx.round), -p.scale);
  }

  // ---- negation and comparison -------------------------------------------------------------------

  /** `Neg` ignores rounding, and never loses a digit by it. */
  lemma NegIsExact(a: Dec)
    requires Fits(a.coef) && Neg(a).Ok?
    ensures Value(Neg(a).value) == -Value(a) && Fits(Neg(a).value.coef)
  {
    hide Value, ExactSum, InRange, RoundToPrecision;
    NegatedValue(a);
    ZeroValue(0);
    assert Fits(Negated(a).coef);
    assert Exact(OpSub, Dec(0, 0), a) == Value(Negated(a));
    MpdKeepsRepresentable(OpSub, Dec(0, 0), a, DefaultContext);
    MpdRounds(OpSub, Dec(0, 0), a, DefaultContext);
  }

  /** `Compare` orders numbers by their values, whatever their exponents. */
  lemma CompareOrdersValues(a: Dec, b: Dec)
    ensures Compare(a, b) == -1 <==> Value(a) < Value(b)
    ensures Compare(a, b) == 0 <==> Value(a) == Value(b)
    ensures Compare(a, b) == 1 <==> Value(a) > Value(b)
  {
    hide Pow10, ExactSum;
    DifferenceValue(a, b);
    var d := ExactSum(a, Negated(b));
    SignOfValue(d);
  }

  lemma SignOfValue(d: Dec)
    ensures Value(d) > 0.0 <==> d.coef > 0
    ensures Value(d) < 0.0 <==> d.coef < 0
  {
    hide Pow10;
    CountInOwnUnit(d.coef, d.exp);
    var c, p := d.coef as real, Pow10(d.exp);
    if c > 0.0 {
      MulPositive(c, p);
    } else if c < 0.0 {
      MulPositive(-c, p);
      assert (-c) * p == -(c * p);
    }
  }

  // ---- a wrong tie -------------------------------------------------------------------------------

  lemma LeadingIsUnique(x: real, e: int, f: int)
    requires x != 0.0 && IsLeading(x, e) && IsLeading(x, f)
    ensures e == f
  {
    if e < f {
      LeadingOrdered(x, e, f);
    } else if f < e {
      LeadingOrdered(x, f, e);
    }
  }

  lemma LeadingOrdered(x: real, e: int, f: int)
    requires x != 0.0 && IsLeading(x, e) && e < f
    ensures !IsLeading(x, f)
  {
    hide Pow10, TenTo, Units;
    var y, k := Abs(x), TenTo(f - e);
    CountInLargerUnit(y, e, f - e);
    TenToGrows(f - e);
    Pow10Step(MAX_PREC - 1);
    OverBelow(Units(y, e), Pow10(MAX_PREC - 1), k);
  }

  lemma OverBelow(z: real, low: real, k: int)
    requires k >= 10 && low > 0.0 && z < 10.0 * low
    ensures Over(z, k) < low
  {
    var kr := k as real;
    assert (kr - 10.0) * low >= 0.0;
    assert (kr - 10.0) * low == kr * low - 10.0 * low;
    assert kr * low == low * kr;
    UnscaleStrict(z, low, kr);
  }

  /** 0.4999...9 with 99 nines and fours in all, plus 0.00...09: the exact sum is below one half and rounds to 0,
      but 99 digits round it to 0.5 and the scale rounds that to 1. */
  const A := Dec(5 * TenTo(98) - 1, -99)
  const B := Dec(9, -100)
  const P := Precision(Context(RoundHalfUp, SSGX_MAX_EXP, SSGX_MIN_EXP), 0)

  lemma ExampleSum()
    ensures ExactSum(A, B) == Dec(5 * TenTo(99) - 1, -100)
    ensures IsLeading(Value(ExactSum(A, B)), -99)
    ensures Round(Units(Value(ExactSum(A, B)), -99), RoundHalfUp) == 5 * TenTo(98)
    ensures 0.0 <= Units(Value(ExactSum(A, B)), 0) < 0.5
    ensures Value(ExactSum(A, B)) != 0.0
  {
    TenToGrows(99);
    hide Pow10, TenTo, Value, Units;
    assert TenTo(0) == 1 && TenTo(1) == 10 by {
      SmallPowers();
    }
    var s := Dec(5 * TenTo(99) - 1, -100);
    assert ExactSum(A, B) == s;
    CountInOwnUnit(s.coef, -100);
    CountInLargerUnit(Value(s), -100, 1);
    CountInLargerUnit(Value(s), -100, 100);
    TenToGrows(100);
    TenToIsPow10(98);
    TenToIsPow10(99);
    TenthOf(s.coef, TenTo(98));
    OverHalf(s.coef, TenTo(99));
    UnitsOfAbs(Value(s), -99);
    SignOfValue(s);
  }

  lemma SmallPowers()
    ensures TenTo(0) == 1 && TenTo(1) == 10
  {
  }

  lemma TenthOf(c: int, t: int)
    requires c == 50 * t - 1 && t >= 1
    ensures Over(c as real, 10) == 5.0 * t as real - 0.1
    ensures Round(Over(c as real, 10), RoundHalfUp) == 5 * t
  {
    var y := Over(c as real, 10);
    assert y == c as real / 10.0;
    FloorUnique(y, 5 * t - 1);
  }

  lemma OverHalf(c: int, t: int)
    requires c == 5 * t - 1 && t >= 1
    ensures 0.0 <= Over(c as real, 10 * t) < 0.5
  {
    Unscale(0.0, c as real, (10 * t) as real);
    UnscaleStrict(c as real, 0.5, (10 * t) as real);
  }

  lemma FirstStep()
    ensures MpdAdd(A, B, P.ctx).0 == Dec(5 * TenTo(98), -99) && !MpdAdd(A, B, P.ctx).1.other
  {
    TenToGrows(99);
    ExampleSum();
    hide Pow10, TenTo, Value, Units, Round;
    var s, r := ExactSum(A, B), Dec(5 * TenTo(98), -99);
    LeadingIsUnique(Value(s), Leading(Value(s)), -99);
    assert RoundToPrecision(Value(s), RoundHalfUp) == r;
    CountInOwnUnit(r.coef, -99);
    AdjustedExponent(r, -99);
  }

  lemma AdjustedExponent(d: Dec, e: int)
    requires Value(d) != 0.0 && d.coef >= 0
    requires TenTo(MAX_PREC - 1) as real <= Units(Value(d), e) < TenTo(MAX_PREC) as real
    ensures Leading(Value(d)) == e
  {
    hide Pow10, TenTo, Units, Value;
    TenToIsPow10(MAX_PREC - 1);
    TenToIsPow10(MAX_PREC);
    SignOfValue(d);
    LeadingIsUnique(Value(d), Leading(Value(d)), e);
  }

  lemma SecondStep()
    ensures SetScale(Dec(5 * TenTo(98), -99), 0, RoundHalfUp) == Ok(Dec(1, 0))
  {
    TenToGrows(99);
    hide Pow10, TenTo, Value, Units;
    var r, one := Dec(5 * TenTo(98), -99), Dec(1, 0);
    CountInOwnUnit(r.coef, -99);
    CountInLargerUnit(Value(r), -99, 99);
    ExactHalf(TenTo(98));
    CountInSmallerUnit(1, -98, 98);
    SignOfValue(one);
    AdjustedExponent(one, -98);
  }

  lemma ExactHalf(t: int)
    requires t > 0
    ensures Over((5 * t) as real, 10 * t) == 0.5 && Round(0.5, RoundHalfUp) == 1
  {
    assert (5 * t) as real == 0.5 * (10 * t) as real;
    FloorUnique(0.5, 0);
  }

  /** Half-up addition with a precision is not the exact sum rounded once for all operands: these two give 1
      where the exact sum rounds to 0. */
  lemma DoubleRoundingCanBeWrong()
    ensures AddScaled(A, B, P) == Ok(Dec(1, 0))
    ensures RoundToScale(Value(A) + Value(B), P.scale, P.ctx.round) == 0.0
  {
    FirstStep();
    SecondStep();
    ExampleSum();
    hide Pow10, TenTo, Value, Units;
    SumValue(A, B);
    SignOfValue(ExactSum(A, B));
    ZeroValue(0);
    BelowHalf(Units(Value(ExactSum(A, B)), 0));
  }

  lemma BelowHalf(y: real)
    requires 0.0 <= y < 0.5
    ensures Round(y, RoundHalfUp) == 0
  {
    FloorUnique(y, 0);
  }

  // ---- a product of a hundred digits -------------------------------------------------------------

  const F50 := Dec(TenTo(49) + 1, 0)
  const F51 := Dec(TenTo(50) + 1, 0)

  lemma ProductsOfPowers(t: int, u: int)
    requires t >= 10 && u >= 10
    ensures t + 1 < t * u && u + 1 < t * u <= (t + 1) * (u + 1)
  {
    MulMonotone(10, u, t);
    MulMonotone(10, t, u);
    assert (t + 1) * (u + 1) == t * u + t + u + 1;
  }

  /** Two numbers of 50 and 51 digits, whose product has 100: without a precision it is not rounded, but throws. */
  lemma LongProductThrows()
    ensures Fits(F50.coef) && Fits(F51.coef) && Multiply(F50, F51) == Thrown
  {
    hide Pow10, TenTo, InRange, RoundToPrecision;
    TenToGrows(49);
    TenToGrows(50);
    TenToAdd(49, 50);
    ProductsOfPowers(TenTo(49), TenTo(50));
    assert !Fits(ExactProduct(F50, F51).coef);
    UnscaledGoesThrough(OpMultiply, F50, F51);
  }

  lemma {:induction false} TenToAdd(m: nat, n: nat)
    ensures TenTo(m + n) == TenTo(m) * TenTo(n)
  {
    if m > 0 {
      TenToAdd(m - 1, n);
    }
  }
}
