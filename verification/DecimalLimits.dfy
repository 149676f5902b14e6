/** When the operations of `BigDecimal` return, by digit counts and exponents only. */
module DecimalLimits {
  import opened Rounding
  import opened BigDecimal
  import opened DecimalRounding
  import opened DecimalTheorems

  // ----- Digits and exponents

  /** `c` has `n` digits. */
  predicate HasDigits(c: int, n: nat) {
    n >= 1 && TenTo(n - 1) <= (if c < 0 then -c else c) < TenTo(n)
  }

  /** The first digit of `x` stands at an exponent from `low` to `high`. */
  ghost predicate FirstDigitIn(x: real, low: int, high: int) {
    exists e: int :: low <= e <= high && Pow10(e) <= Abs(x) < Pow10(e + 1)
  }

  /** There is room for `c * 10^e`: its first digit is in the range of exponents, and a zero may have one down to 98
      below the smallest. */
  ghost predicate HasRoom(c: int, e: int, low: int, high: int) {
    if c == 0 then low - 98 <= e <= high
    else exists n: nat :: HasDigits(c, n) && low <= e + n - 1 <= high
  }

  lemma {:induction false} CountDigits(c: int) returns (n: nat)
    requires c > 0
    ensures HasDigits(c, n)
    decreases c
  {
    if c < 10 {
      n := 1;
      SmallPowers();
    } else {
      var m := CountDigits(c / 10);
      n := m + 1;
      TenToGrows(m);
      TenToGrows(n);
      Tenfold(c, TenTo(m - 1), TenTo(m));
    }
  }

  lemma Tenfold(c: int, low: int, high: int)
    requires low <= c / 10 < high
    ensures 10 * low <= c < 10 * high
  {
  }

  lemma AbsValue(c: int, e: int)
    ensures Abs(Value(Dec(c, e))) == (if c < 0 then -c else c) as real * Pow10(e)
  {
    hide Pow10;
    var p := Pow10(e);
    SignOfValue(Dec(c, e));
    assert (-c) as real * p == -(c as real * p);
  }

  /** A number of `n` digits at exponent `e` has its first digit at `e + n - 1`. */
  lemma DigitsToDecade(c: int, e: int, n: nat)
    requires HasDigits(c, n)
    ensures Pow10(e + n - 1) <= Abs(Value(Dec(c, e))) < Pow10(e + n)
  {
    hide Pow10, TenTo, Abs, Value;
    var m := if c < 0 then -c else c;
    var low, high, p, x := Pow10(n - 1), Pow10(n), Pow10(e), Abs(Value(Dec(c, e)));
    TenToIsPow10(n - 1);
    TenToIsPow10(n);
    assert x == m as real * p by {
      AbsValue(c, e);
    }
    assert Pow10(e + n - 1) == low * p by {
      Pow10Add(n - 1, e);
      assert n - 1 + e == e + n - 1;
    }
    assert Pow10(e + n) == high * p by {
      Pow10Add(n, e);
      assert n + e == e + n;
    }
    Between(Pow10(e + n - 1), low, x, m as real, Pow10(e + n), high, p);
  }

  lemma Between(a: real, low: real, x: real, m: real, b: real, high: real, p: real)
    requires low <= m < high && p > 0.0 && a == low * p && x == m * p && b == high * p
    ensures a <= x < b
  {
    TimesUnit(low, m, high, p);
  }

  lemma TimesUnit(low: real, m: real, high: real, p: real)
    requires low <= m < high && p > 0.0
    ensures low * p <= m * p < high * p
  {
    MulPositive(high - m, p);
    assert (high - m) * p == high * p - m * p;
    if low < m {
      MulPositive(m - low, p);
      assert (m - low) * p == m * p - low * p;
    }
  }

  lemma LeadingDecade(x: real)
    requires x != 0.0
    ensures var e := Leading(x); Pow10(e + 98) <= Abs(x) < Pow10(e + 99)
  {
    hide Pow10, Abs;
    var e := Leading(x);
    Pow10Add(98, e);
    Pow10Add(99, e);
    Uncount(Abs(x), Pow10(e), Pow10(98), Pow10(99));
  }

  lemma Uncount(y: real, p: real, low: real, high: real)
    requires p > 0.0 && low <= y / p < high
    ensures low * p <= y < high * p
  {
    assert y == (y / p) * p;
    TimesUnit(low, y / p, high, p);
  }

  lemma LeadingIs(x: real, e: int)
    requires x != 0.0 && Pow10(e) <= Abs(x) < Pow10(e + 1)
    ensures Leading(x) == e - 98
  {
    hide Pow10, Abs, IsLeading;
    LeadingOfDecade(x, e + 1);
    LeadingIsUnique(x, Leading(x), e - 98);
  }

  lemma LeadingInRange(x: real, low: int, high: int)
    requires x != 0.0
    ensures low <= Leading(x) + 98 <= high <==> FirstDigitIn(x, low, high)
  {
    hide Pow10, Abs, IsLeading;
    LeadingDecade(x);
    if low <= Leading(x) + 98 <= high {
      var e := Leading(x) + 98;
      assert low <= e <= high && Pow10(e) <= Abs(x) < Pow10(e + 1);
    }
    if FirstDigitIn(x, low, high) {
      var e: int :| low <= e <= high && Pow10(e) <= Abs(x) < Pow10(e + 1);
      LeadingIs(x, e);
    }
  }

  /** The two ways to say that there is room. */
  lemma RoomIsFirstDigit(c: int, e: int, low: int, high: int)
    requires c != 0
    ensures HasRoom(c, e, low, high) <==> FirstDigitIn(Value(Dec(c, e)), low, high)
  {
    hide Pow10, Abs, TenTo, Value, FirstDigitIn, HasDigits;
    var x := Value(Dec(c, e));
    ValueNonZero(Dec(c, e));
    LeadingInRange(x, low, high);
    var n := CountDigits(if c < 0 then -c else c);
    assert HasDigits(c, n) by {
      SameDigits(c, n);
    }
    DigitsToDecade(c, e, n);
    LeadingIs(x, e + n - 1);
    if HasRoom(c, e, low, high) {
      var k: nat :| HasDigits(c, k) && low <= e + k - 1 <= high;
      DigitsToDecade(c, e, k);
      LeadingIs(x, e + k - 1);
    }
  }

  lemma SameDigits(c: int, n: nat)
    ensures HasDigits(if c < 0 then -c else c, n) <==> HasDigits(c, n)
  {
  }

  /** The range of a context in terms of digits. */
  lemma RangeIsRoom(d: Dec, ctx: Context)
    ensures InRange(d, ctx) <==> HasRoom(d.coef, d.exp, ctx.emin, ctx.emax)
  {
    hide Pow10, Abs, TenTo, Value, HasRoom, FirstDigitIn;
    if d.coef == 0 {
      ZeroRoom(d.exp, ctx.emin, ctx.emax);
    } else {
      ValueNonZero(d);
      LeadingInRange(Value(d), ctx.emin, ctx.emax);
      RoomIsFirstDigit(d.coef, d.exp, ctx.emin, ctx.emax);
    }
  }

  lemma ZeroRoom(e: int, low: int, high: int)
    ensures HasRoom(0, e, low, high) <==> low - 98 <= e <= high
  {
  }

  // ----- Unscaled operations

  /** The exponent of an exact sum, difference or product. */
  function IdealExponent(op: Op, a: Dec, b: Dec): int
    requires !op.OpDiv?
  {
    if op.OpMultiply? then a.exp + b.exp else if a.exp <= b.exp then a.exp else b.exp
  }

  ghost function ExactDec(op: Op, a: Dec, b: Dec): Dec
    requires !op.OpDiv?
  {
    match op
    case OpAdd => ExactSum(a, b)
    case OpSub => ExactSum(a, Negated(b))
    case _ => ExactProduct(a, b)
  }

  /** `c` counts the exact result in units of its exponent. */
  lemma IsExactDec(op: Op, a: Dec, b: Dec, c: int)
    requires !op.OpDiv?
    ensures Value(Dec(c, IdealExponent(op, a, b))) == Exact(op, a, b) <==>
            ExactDec(op, a, b) == Dec(c, IdealExponent(op, a, b))
  {
    hide Value, CoefAt;
    match op {
      case OpAdd => SumValue(a, b);
      case OpSub => DifferenceValue(a, b);
      case OpMultiply => ProductValue(a, b);
    }
    var d := ExactDec(op, a, b);
    assert d.exp == IdealExponent(op, a, b);
    SameMultiple(d.coef, c, d.exp);
  }

  /** `Add`, `Sub` and `Multiply` of numbers whose exact result is `c` times ten to its exponent return just that, if
      `c` has at most 99 digits and there is room for it, and throw otherwise. */
  lemma UnscaledReturns(op: Op, a: Dec, b: Dec, c: int)
    requires !op.OpDiv? && Value(Dec(c, IdealExponent(op, a, b))) == Exact(op, a, b)
    ensures var e := IdealExponent(op, a, b);
            Unscaled(op, a, b) ==
              if -TenTo(99) < c < TenTo(99) && HasRoom(c, e, -9_999_999_999, 9_999_999_999) then Ok(Dec(c, e))
              else Thrown
  {
    hide Value, ExactSum, RoundToPrecision, TenTo, HasRoom, InRange, IdealExponent, Exact;
    IsExactDec(op, a, b, c);
    RangeIsRoom(Dec(c, IdealExponent(op, a, b)), DefaultContext);
  }

  /** There is always such a `c`. */
  lemma ExactIsCounted(op: Op, a: Dec, b: Dec) returns (c: int)
    requires !op.OpDiv?
    ensures Value(Dec(c, IdealExponent(op, a, b))) == Exact(op, a, b)
  {
    hide Value, CoefAt;
    c := ExactDec(op, a, b).coef;
    IsExactDec(op, a, b, c);
    assert ExactDec(op, a, b).exp == IdealExponent(op, a, b);
  }

  /** A number minus itself is zero at its own exponent, for every exponent from 98 below the smallest on. */
  lemma MinusItself(a: Dec)
    ensures Sub(a, a) == if -9_999_999_999 - 98 <= a.exp <= 9_999_999_999 then Ok(Dec(0, a.exp)) else Thrown
  {
    hide Value, TenTo, HasRoom, Sub;
    ZeroValue(a.exp);
    ZeroRoom(a.exp, -9_999_999_999, 9_999_999_999);
    assert TenTo(99) >= 1;
    assert Exact(OpSub, a, a) == 0.0;
    UnscaledReturns(OpSub, a, a, 0);
    assert Unscaled(OpSub, a, a) == Sub(a, a);
  }

  /** `Div` throws for a zero divisor. A zero divided is zero if there is room for it at the difference of the
      exponents; otherwise the quotient is returned exactly when a number of at most 99 digits is equal to it and its
      first digit is in the range of exponents. */
  lemma DivReturns(a: Dec, b: Dec)
    ensures b.coef == 0 ==> Div(a, b) == Thrown
    ensures b.coef != 0 && a.coef == 0 ==>
              Div(a, b) == if -9_999_999_999 - 98 <= a.exp - b.exp <= 9_999_999_999 then Ok(Dec(0, a.exp - b.exp))
                           else Thrown
    ensures b.coef != 0 && a.coef != 0 ==>
              Value(b) != 0.0
              && (Div(a, b).Ok? <==>
                    Representable(Value(a) / Value(b))
                    && FirstDigitIn(Value(a) / Value(b), -9_999_999_999, 9_999_999_999))
  {
    hide Value, RoundToPrecision, FirstDigitIn, HasRoom, Representable;
    if b.coef != 0 {
      ValueNonZero(b);
      if a.coef == 0 {
        RangeIsRoom(Dec(0, a.exp - b.exp), DefaultContext);
        ZeroRoom(a.exp - b.exp, -9_999_999_999, 9_999_999_999);
      } else {
        NonZeroQuotient(a, b);
      }
    }
  }

  lemma NonZeroQuotient(a: Dec, b: Dec)
    requires a.coef != 0 && b.coef != 0
    ensures Value(b) != 0.0
    ensures Div(a, b).Ok? <==>
              Representable(Value(a) / Value(b))
              && FirstDigitIn(Value(a) / Value(b), -9_999_999_999, 9_999_999_999)
  {
    hide Value, InRange, RoundToPrecision, FirstDigitIn, HasRoom, Representable;
    ValueNonZero(a);
    ValueNonZero(b);
    DivGoesThrough(a, b);
    if Representable(Value(a) / Value(b)) {
      MpdKeepsRepresentable(OpDiv, a, b, DefaultContext);
      var r := MpdDiv(a, b, DefaultContext).0;
      QuotientNonZero(Value(a), Value(b));
      ZeroCoefficient(r);
      RangeIsRoom(r, DefaultContext);
      RoomIsFirstDigit(r.coef, r.exp, -9_999_999_999, 9_999_999_999);
    }
  }

  lemma QuotientNonZero(x: real, y: real)
    requires x != 0.0 && y != 0.0
    ensures x / y != 0.0
  {
    assert x == (x / y) * y;
  }

  /** `Neg` of a number of at most 99 digits returns exactly when there is room for the number itself; a zero is taken
      at exponent zero unless its own is smaller. */
  lemma NegReturns(a: Dec)
    requires Fits(a.coef)
    ensures Neg(a).Ok? <==>
            if a.coef == 0 then a.exp >= -9_999_999_999 - 98
            else HasRoom(a.coef, a.exp, -9_999_999_999, 9_999_999_999)
  {
    hide Value, ExactSum, InRange, RoundToPrecision, FirstDigitIn, HasRoom, TenTo, Representable;
    var r := MpdSub(Dec(0, 0), a, DefaultContext).0;
    NegatedParts(a);
    assert MpdSub(Dec(0, 0), a, DefaultContext).1.other == !InRange(r, DefaultContext);
    RangeIsRoom(r, DefaultContext);
    if a.coef == 0 {
      ZeroRoom(r.exp, -9_999_999_999, 9_999_999_999);
    } else {
      ZeroCoefficient(a);
      ZeroCoefficient(r);
      RoomIsFirstDigit(r.coef, r.exp, -9_999_999_999, 9_999_999_999);
      RoomIsFirstDigit(a.coef, a.exp, -9_999_999_999, 9_999_999_999);
      SameFirstDigit(Value(a), -9_999_999_999, 9_999_999_999);
    }
  }

  lemma NegatedParts(a: Dec)
    requires Fits(a.coef)
    ensures var r := MpdSub(Dec(0, 0), a, DefaultContext).0;
            && Value(r) == -Value(a)
            && (a.coef == 0 ==> r == Dec(0, if a.exp < 0 then a.exp else 0))
  {
    hide Value, InRange, RoundToPrecision, TenTo, Finalize;
    NegatedValue(a);
    ZeroValue(0);
    assert Fits(Negated(a).coef);
    assert Exact(OpSub, Dec(0, 0), a) == Value(Negated(a));
    MpdKeepsRepresentable(OpSub, Dec(0, 0), a, DefaultContext);
    if a.coef == 0 {
      var e := if a.exp < 0 then a.exp else 0;
      assert ExactSum(Dec(0, 0), Negated(a)) == Dec(0, e);
      assert Fits(0);
      KeptByFinalize(Dec(0, e), DefaultContext);
    }
  }

  lemma KeptByFinalize(d: Dec, ctx: Context)
    requires Fits(d.coef)
    ensures Finalize(d, ctx).0 == d
  {
  }

  lemma SameFirstDigit(x: real, low: int, high: int)
    ensures FirstDigitIn(x, low, high) <==> FirstDigitIn(-x, low, high)
  {
    hide Pow10;
    assert Abs(x) == Abs(-x);
  }

  // ----- Scaled operations

  /** `SetScale` returns the number rounded once exactly when the scale is one that it takes, the rounded coefficient
      has at most 99 digits, and its first digit is not above the largest exponent; a zero always has room. */
  lemma SetScaleReturns(d: Dec, scale: int, mode: RoundType)
    ensures var n := Round(Units(Value(d), -scale), mode);
            var room := -TenTo(99) < n < TenTo(99)
                        && (n == 0 || exists k: nat :: HasDigits(n, k) && -scale + k - 1 <= 9_999_999_999);
            SetScale(d, scale, mode) ==
              if scale < 99 && -9_999_999_999 <= -scale <= 9_999_999_999 && room then Ok(Dec(n, -scale)) else Thrown
  {
    hide Value, Units, Round, TenTo, HasDigits, InRange;
    var n := Round(Units(Value(d), -scale), mode);
    RangeIsRoom(Dec(n, -scale), DefaultContext.(round := mode));
  }

  /** Whether there is room for a rounded coefficient at a scale. */
  ghost predicate RoomAt(n: int, scale: int) {
    && scale < 99 && -9_999_999_999 <= -scale <= 9_999_999_999
    && -TenTo(99) < n < TenTo(99)
    && (n == 0 || exists k: nat :: HasDigits(n, k) && -scale + k - 1 <= 9_999_999_999)
  }

  /** An operation signals nothing but rounding exactly when it is defined and there is room for what the context
      rounds its exact result to; a zero quotient counts at the difference of the exponents. */
  lemma NothingElseSignalled(op: Op, a: Dec, b: Dec, ctx: Context)
    ensures !Mpd(op, a, b, ctx).1.other <==>
              && (op.OpDiv? ==> b.coef != 0)
              && HasRoom(Mpd(op, a, b, ctx).0.coef, Mpd(op, a, b, ctx).0.exp, ctx.emin, ctx.emax)
  {
    hide Value, ExactSum, RoundToPrecision, InRange, HasRoom, Fits;
    RangeIsRoom(Mpd(op, a, b, ctx).0, ctx);
  }

  /** An exact result of at most 99 digits is what the context leaves, as it stands; and a zero divided is zero at the
      difference of the exponents. */
  lemma ExactIsLeft(op: Op, a: Dec, b: Dec, ctx: Context)
    ensures op.OpDiv? && b.coef != 0 && a.coef == 0 ==> Mpd(op, a, b, ctx).0 == Dec(0, a.exp - b.exp)
    ensures !op.OpDiv? ==>
              forall c: int :: -TenTo(99) < c < TenTo(99) ==>
                (Value(Dec(c, IdealExponent(op, a, b))) == Exact(op, a, b) ==>
                   Mpd(op, a, b, ctx).0 == Dec(c, IdealExponent(op, a, b)))
  {
    if !op.OpDiv? {
      forall c: int | -TenTo(99) < c < TenTo(99) && Value(Dec(c, IdealExponent(op, a, b))) == Exact(op, a, b)
        ensures Mpd(op, a, b, ctx).0 == Dec(c, IdealExponent(op, a, b))
      {
        hide Value, ExactSum, RoundToPrecision, TenTo, InRange, IdealExponent, Exact, Finalize;
        IsExactDec(op, a, b, c);
        KeptByFinalize(Dec(c, IdealExponent(op, a, b)), ctx);
      }
    }
  }

  /** In the directed modes and in 05up the scaled operations return exactly the exact result rounded once to the
      scale, if there is room for that, and throw otherwise, once nothing but rounding was signalled on the way. A
      result that rounds to zero returns at every scale that is taken. */
  lemma DirectedScaledReturns(op: Op, a: Dec, b: Dec, p: Precision)
    requires !IsHalfMode(p.ctx.round) && !Mpd(op, a, b, p.ctx).1.other
    ensures Defined(op, b)
    ensures var n := Round(Units(Exact(op, a, b), -p.scale), p.ctx.round);
            Scaled(op, a, b, p) == if RoomAt(n, p.scale) then Ok(Dec(n, -p.scale)) else Thrown
  {
    hide Value, Mpd, Exact, Units, Round, TenTo, HasDigits, FirstRounding, Scaled, SetScale;
    MpdRounds(op, a, b, p.ctx);
    var m, x := Mpd(op, a, b, p.ctx).0, Exact(op, a, b);
    ScaledIsRescaled(op, a, b, p);
    SetScaleReturns(m, p.scale, p.ctx.round);
    if Scaled(op, a, b, p).Ok? {
      DirectedRescale(x, m, p.scale, p.ctx.round);
      RescaledValue(m, p.scale, p.ctx.round);
      SameMultiple(Round(Units(Value(m), -p.scale), p.ctx.round), Round(Units(x, -p.scale), p.ctx.round), -p.scale);
    } else if Fits(Round(Units(x, -p.scale), p.ctx.round)) {
      RescaleAgrees(x, m, p.scale, p.ctx.round);
    }
  }

  /** In the half modes they do the same, except that after a wrong tie the first rounding counts instead of the exact
      result. */
  lemma HalfScaledReturns(op: Op, a: Dec, b: Dec, p: Precision)
    requires IsHalfMode(p.ctx.round) && !Mpd(op, a, b, p.ctx).1.other
    ensures Defined(op, b)
    ensures var x, v := Exact(op, a, b), Value(Mpd(op, a, b, p.ctx).0);
            var counts := if WrongTie(x, v, p.scale, p.ctx.round) then v else x;
            var n := Round(Units(counts, -p.scale), p.ctx.round);
            Scaled(op, a, b, p) == if RoomAt(n, p.scale) then Ok(Dec(n, -p.scale)) else Thrown
  {
    hide Value, Mpd, Exact, Units, Round, TenTo, HasDigits, FirstRounding, Scaled, SetScale, WrongTie;
    MpdRounds(op, a, b, p.ctx);
    var m, x := Mpd(op, a, b, p.ctx).0, Exact(op, a, b);
    ScaledIsRescaled(op, a, b, p);
    SetScaleReturns(m, p.scale, p.ctx.round);
    if !WrongTie(x, Value(m), p.scale, p.ctx.round) {
      if Scaled(op, a, b, p).Ok? {
        HalfRescale(x, m, p.scale, p.ctx.round);
        RescaledValue(m, p.scale, p.ctx.round);
        SameMultiple(Round(Units(Value(m), -p.scale), p.ctx.round), Round(Units(x, -p.scale), p.ctx.round), -p.scale);
      } else if Fits(Round(Units(x, -p.scale), p.ctx.round)) {
        RescaleAgrees(x, m, p.scale, p.ctx.round);
      }
    }
  }
}
