/** What the operations of `BigDecimal` compute: unscaled operations are exact or throw, and the scaled ones,
    which round twice, are compared with rounding the exact result once. */
module DecimalRounding {
  import opened Rounding
  import opened BigDecimal

  // ---- more about powers -------------------------------------------------------------------------

  lemma Pow10AddAny(a: int, b: int)
    ensures Pow10(a + b) == Pow10(a) * Pow10(b)
  {
    hide Pow10;
    if a >= 0 {
      Pow10Add(a, b);
    } else {
      Pow10Add(-a, a + b);
      Pow10Inverse(-a);
      var p, q, s := Pow10(a), Pow10(-a), Pow10(a + b);
      assert p * (q * s) == (p * q) * s;
    }
  }

  lemma UnitRatio(n: nat)
    ensures IsUnitRatio(TenTo(n))
  {
    if n > 0 {
      var t := TenTo(n - 1);
      assert TenTo(n) == 10 * t;
      hide TenTo;
      assert (10 * t) % 10 == 0;
    }
  }

  /** A value counted in a unit and in a unit `10^n` times as large. */
  lemma CountInLargerUnit(x: real, e: int, n: nat)
    ensures Units(x, e + n) == Over(Units(x, e), TenTo(n))
  {
    hide Pow10;
    Pow10Add(n, e);
    TenToIsPow10(n);
    DivideTwice(x, Pow10(e), TenTo(n) as real);
  }

  lemma DivideTwice(x: real, p: real, t: real)
    requires p > 0.0 && t > 0.0
    ensures t * p > 0.0 && x / (t * p) == x / p / t
  {
    MulPositive(t, p);
    assert x == (x / p / t) * (t * p) by {
      assert x / p == (x / p / t) * t;
      assert x == (x / p) * p;
      assert ((x / p / t) * t) * p == (x / p / t) * (t * p);
    }
  }

  /** A whole count of units counted in a unit `10^n` times as small. */
  lemma CountInSmallerUnit(c: int, e: int, n: nat)
    ensures Units(Value(Dec(c, e + n)), e) == (c * TenTo(n)) as real
  {
    hide Pow10;
    Pow10Add(n, e);
    TenToIsPow10(n);
    var p, t := Pow10(e), TenTo(n);
    RealProduct(c, t);
    assert c as real * (t as real * p) == (c * t) as real * p;
    CancelUnit((c * t) as real, p);
  }

  lemma CancelUnit(n: real, p: real)
    requires p > 0.0
    ensures n * p / p == n
  {
  }

  lemma CountInOwnUnit(c: int, e: int)
    ensures Units(Value(Dec(c, e)), e) == c as real
  {
    hide Pow10;
    CancelUnit(c as real, Pow10(e));
  }

  lemma UnitsOfAbs(x: real, e: int)
    ensures Units(Abs(x), e) == Abs(Units(x, e))
  {
    hide Pow10;
    var p := Pow10(e);
    if x < 0.0 {
      assert (-x) / p == -(x / p);
      UnscaleStrict(x, 0.0, p);
    } else {
      Unscale(0.0, x, p);
    }
  }

  lemma CoefAtValue(d: Dec, e: int)
    requires e <= d.exp
    ensures CoefAt(d, e) as real * Pow10(e) == Value(d)
  {
    hide Pow10, TenTo;
    Pow10Add(d.exp - e, e);
    TenToIsPow10(d.exp - e);
    var t, p := TenTo(d.exp - e), Pow10(e);
    RealProduct(d.coef, t);
    assert (d.coef as real * t as real) * p == d.coef as real * (t as real * p);
  }

  lemma SumValue(a: Dec, b: Dec)
    ensures Value(ExactSum(a, b)) == Value(a) + Value(b)
  {
    hide Pow10, CoefAt;
    var e := Min(a.exp, b.exp);
    CoefAtValue(a, e);
    CoefAtValue(b, e);
    var p := Pow10(e);
    assert (CoefAt(a, e) + CoefAt(b, e)) as real * p == CoefAt(a, e) as real * p + CoefAt(b, e) as real * p;
  }

  lemma NegatedValue(a: Dec)
    ensures Value(Negated(a)) == -Value(a)
  {
    hide Pow10;
    assert (-a.coef) as real * Pow10(a.exp) == -(a.coef as real * Pow10(a.exp));
  }

  lemma DifferenceValue(a: Dec, b: Dec)
    ensures Value(ExactSum(a, Negated(b))) == Value(a) - Value(b)
  {
    SumValue(a, Negated(b));
    NegatedValue(b);
  }

  lemma ProductValue(a: Dec, b: Dec)
    ensures Value(ExactProduct(a, b)) == Value(a) * Value(b)
  {
    hide Pow10;
    Pow10AddAny(a.exp, b.exp);
    RealProduct(a.coef, b.coef);
    var c, d, p, q := a.coef as real, b.coef as real, Pow10(a.exp), Pow10(b.exp);
    assert (c * d) * (p * q) == (c * p) * (d * q);
  }

  // ---- rounding to 99 digits ---------------------------------------------------------------------

  lemma RoundBetween(y: real, low: int, high: int, mode: RoundType)
    requires 0 <= low && low as real <= Abs(y) < high as real
    ensures low <= Round(y, mode) <= high || -high <= Round(y, mode) <= -low
  {
  }

  /** `r` is what the first rounding of `x` leaves: `x` itself, or a count of a unit in which `x` has 99 digits. */
  ghost predicate FirstRounding(x: real, r: Dec, mode: RoundType) {
    && Fits(r.coef)
    && (Value(r) == x || exists e: int :: FirstRoundingAt(x, r, e, mode))
  }

  ghost predicate FirstRoundingAt(x: real, r: Dec, e: int, mode: RoundType) {
    var n := Round(Units(x, e), mode);
    && Value(r) == Value(Dec(n, e)) && HasAllDigits(n)
    && TenTo(MAX_PREC - 1) as real <= Abs(Units(x, e))
  }

  /** At least 99 digits. */
  predicate HasAllDigits(n: int) { n >= TenTo(MAX_PREC - 1) || n <= -TenTo(MAX_PREC - 1) }

  lemma CarriedValue(c: int, e: int, n: nat)
    requires n >= 1
    ensures Value(Dec(c * TenTo(n - 1), e + 1)) == Value(Dec(c * TenTo(n), e))
  {
    var t := TenTo(n - 1);
    assert TenTo(n) == 10 * t;
    Pow10Step(e);
    hide Pow10, TenTo;
    var p := Pow10(e);
    RealProduct(c, t);
    RealProduct(c, 10 * t);
    var ct := (c * t) as real;
    assert (c * (10 * t)) as real == 10.0 * ct;
    assert ct * (10.0 * p) == (10.0 * ct) * p;
  }

  lemma TenToGrows(n: nat)
    requires n >= 1
    ensures 0 < TenTo(n - 1) < TenTo(n) == 10 * TenTo(n - 1)
  {
  }

  lemma CarriedFits(n: int, e: int)
    requires -TenTo(MAX_PREC) <= n <= TenTo(MAX_PREC)
    ensures Fits(Carried(n, e).coef) && Value(Carried(n, e)) == Value(Dec(n, e))
  {
    TenToGrows(MAX_PREC);
    var low, high := TenTo(MAX_PREC - 1), TenTo(MAX_PREC);
    hide Pow10, TenTo, Value;
    if n == high {
      CarriedValue(1, e, MAX_PREC);
      assert 1 * low == low && 1 * high == high;
    } else if n == -high {
      CarriedValue(-1, e, MAX_PREC);
      assert -1 * low == -low && -1 * high == -high;
    }
  }

  lemma LeadingRounds(x: real, e: int, mode: RoundType)
    requires IsLeading(x, e)
    ensures FirstRoundingAt(x, Carried(Round(Units(x, e), mode), e), e, mode)
    ensures Fits(Carried(Round(Units(x, e), mode), e).coef)
  {
    hide Pow10, TenTo, Value, Units, Round, Carried;
    TenToIsPow10(MAX_PREC);
    TenToIsPow10(MAX_PREC - 1);
    UnitsOfAbs(x, e);
    RoundBetween(Units(x, e), TenTo(MAX_PREC - 1), TenTo(MAX_PREC), mode);
    CarriedFits(Round(Units(x, e), mode), e);
  }

  lemma PrecisionRounds(x: real, mode: RoundType)
    ensures FirstRounding(x, RoundToPrecision(x, mode), mode)
  {
    hide Pow10, TenTo, Value, Units, Round, Carried, FirstRoundingAt, IsLeading;
    if x == 0.0 {
      ZeroValue(0);
    } else {
      LeadingRounds(x, Leading(x), mode);
    }
  }

  lemma ZeroValue(e: int)
    ensures Value(Dec(0, e)) == 0.0
  {
  }

  /** The result of an operation whose context status passes is a first rounding of the exact result. */
  lemma FinalizeRounds(d: Dec, ctx: Context)
    ensures FirstRounding(Value(d), Finalize(d, ctx).0, ctx.round)
  {
    hide Pow10, TenTo;
    PrecisionRounds(Value(d), ctx.round);
  }

  lemma DivRounds(a: Dec, b: Dec, ctx: Context)
    requires b.coef != 0
    ensures Value(b) != 0.0 && FirstRounding(Value(a) / Value(b), MpdDiv(a, b, ctx).0, ctx.round)
  {
    hide Pow10, TenTo;
    ValueNonZero(b);
    TenToGrows(MAX_PREC);
    if a.coef == 0 {
      assert Value(a) == 0.0;
    } else {
      PrecisionRounds(Value(a) / Value(b), ctx.round);
    }
  }

  // ---- rounding twice ----------------------------------------------------------------------------

  /** One rounding of `x` to `scale` decimal places. */
  function RoundToScale(x: real, scale: int, mode: RoundType): real {
    Value(Dec(Round(Units(x, -scale), mode), -scale))
  }

  /** Quantizing to a unit finer than the 99-digit one would need a hundred digits. */
  lemma FinerUnitOverflows(c: int, n: nat)
    requires n >= 1 && HasAllDigits(c)
    ensures !Fits(c * TenTo(n))
  {
    TenToGrows(MAX_PREC);
    TenToGrows(n);
    hide TenTo;
    TimesTen(c, TenTo(MAX_PREC - 1), TenTo(n));
  }

  lemma TimesTen(c: int, low: int, t: int)
    requires 0 < low && t >= 10 && (c >= low || c <= -low)
    ensures c * t >= 10 * low || c * t <= -10 * low
  {
    var a := if c > 0 then c else -c;
    MulMonotone(10, t, a);
    assert a * t == if c > 0 then c * t else -(c * t);
    assert 10 * a == a * 10;
  }

  lemma RoundAtLeast(y: real, low: int, mode: RoundType)
    requires 0 <= low && low as real <= Abs(y)
    ensures Round(y, mode) >= low || Round(y, mode) <= -low
  {
    hide Round;
    RoundBetween(y, low, Floor(Abs(y)) + 1, mode);
  }

  /** So it would for the number itself. */
  lemma FinerScaleOverflows(x: real, e: int, q: int, mode: RoundType)
    requires q < e && TenTo(MAX_PREC - 1) as real <= Abs(Units(x, e))
    ensures !Fits(Round(Units(x, q), mode))
  {
    TenToGrows(MAX_PREC);
    TenToGrows(e - q);
    hide Pow10, TenTo, Units, Round, Over, Abs;
    var low, k := TenTo(MAX_PREC - 1), TenTo(e - q);
    CountInLargerUnit(x, q, e - q);
    AbsOver(Units(x, q), k);
    ScaledUp(low, Abs(Units(x, q)), k);
    AtLeastTimesTen(low, k);
    RoundAtLeast(Units(x, q), low * k, mode);
  }

  lemma AtLeastTimesTen(low: int, k: int)
    requires low > 0 && k >= 10
    ensures low * k >= 10 * low
  {
    TimesTen(low, low, k);
  }

  lemma ScaledUp(low: int, z: real, k: int)
    requires k > 0 && low as real <= Over(z, k)
    ensures (low * k) as real <= z
  {
    Scale(low as real, z, k as real);
    RealProduct(low, k);
  }

  /** When the second rounding goes through, its unit is a power of ten, at least one, of the first unit. */
  lemma UnitsAreNested(x: real, r: Dec, e: int, scale: int, mode: RoundType)
    requires FirstRoundingAt(x, r, e, mode) && SetScale(r, scale, mode).Ok?
    ensures e <= -scale
    ensures var k, n := TenTo(-scale - e), Round(Units(x, e), mode);
            Units(Value(r), -scale) == Over(n as real, k) && Units(x, -scale) == Over(Units(x, e), k)
  {
    hide Pow10, TenTo, Value, Units, Round, Over, InRange;
    var n, q := Round(Units(x, e), mode), -scale;
    if q < e {
      CountInSmallerUnit(n, q, e - q);
      RoundInteger(n * TenTo(e - q), mode);
      FinerUnitOverflows(n, e - q);
    }
    CountInLargerUnit(x, e, q - e);
    CountInLargerUnit(Value(r), e, q - e);
    CountInOwnUnit(n, e);
  }

  lemma RescaledValue(r: Dec, scale: int, mode: RoundType)
    requires SetScale(r, scale, mode).Ok?
    ensures Value(SetScale(r, scale, mode).value) == RoundToScale(Value(r), scale, mode)
    ensures Fits(SetScale(r, scale, mode).value.coef) && SetScale(r, scale, mode).value.exp == -scale
  {
  }

  /** In the directed modes and in 05up, quantizing a first rounding of `x` rounds `x` once. */
  lemma DirectedRescale(x: real, r: Dec, scale: int, mode: RoundType)
    requires FirstRounding(x, r, mode) && !IsHalfMode(mode) && SetScale(r, scale, mode).Ok?
    ensures Value(SetScale(r, scale, mode).value) == RoundToScale(x, scale, mode)
  {
    RescaledValue(r, scale, mode);
    hide Pow10, TenTo, Value, Units, Round, Over, SetScale;
    if Value(r) != x {
      var e: int :| FirstRoundingAt(x, r, e, mode);
      UnitsAreNested(x, r, e, scale, mode);
      UnitRatio(-scale - e);
      DirectedTwice(Units(x, e), TenTo(-scale - e), mode);
    }
  }

  /** Unless a tie goes wrong, the second rounding gives what a single one would give, if that has at most 99 digits. */
  lemma RescaleAgrees(x: real, r: Dec, scale: int, mode: RoundType)
    requires FirstRounding(x, r, mode) && (IsHalfMode(mode) ==> !WrongTie(x, Value(r), scale, mode))
    requires Fits(Round(Units(x, -scale), mode))
    ensures Round(Units(Value(r), -scale), mode) == Round(Units(x, -scale), mode)
  {
    hide Pow10, TenTo, Value, Units, Round, Over, Fits, TieBrokenWrongly;
    if Value(r) != x {
      var e: int :| FirstRoundingAt(x, r, e, mode);
      if -scale < e {
        FinerScaleOverflows(x, e, -scale, mode);
      } else {
        UnitRatio(-scale - e);
        CountInLargerUnit(x, e, -scale - e);
        CountInLargerUnit(Value(r), e, -scale - e);
        CountInOwnUnit(Round(Units(x, e), mode), e);
        if IsHalfMode(mode) {
          HalfTwice(Units(x, e), TenTo(-scale - e), mode);
        } else {
          DirectedTwice(Units(x, e), TenTo(-scale - e), mode);
        }
      }
    }
  }

  /** The first rounding put the magnitude on a tie of the second, which is then broken away from the exact
      result. */
  predicate WrongTie(x: real, v: real, scale: int, mode: RoundType)
    requires IsHalfMode(mode)
  {
    TieBrokenWrongly(Abs(Units(x, -scale)), Abs(Units(v, -scale)), mode)
  }

  lemma SameMultiple(m: int, n: int, e: int)
    ensures Value(Dec(m, e)) == Value(Dec(n, e)) <==> m == n
  {
    CountInOwnUnit(m, e);
    CountInOwnUnit(n, e);
  }

  /** In the half modes, quantizing a first rounding of `x` rounds `x` once exactly when no tie goes wrong. */
  lemma HalfRescale(x: real, r: Dec, scale: int, mode: RoundType)
    requires FirstRounding(x, r, mode) && IsHalfMode(mode) && SetScale(r, scale, mode).Ok?
    ensures Value(SetScale(r, scale, mode).value) == RoundToScale(x, scale, mode)
            <==> !WrongTie(x, Value(r), scale, mode)
  {
    RescaledValue(r, scale, mode);
    hide Pow10, TenTo, Value, Units, Round, SetScale, RoundMagnitude, Floor, Abs, RoundToScale, FirstRoundingAt;
    if Value(r) != x {
      var e: int :| FirstRoundingAt(x, r, e, mode);
      HalfRescaleAt(x, r, e, scale, mode);
    }
  }

  lemma HalfRescaleAt(x: real, r: Dec, e: int, scale: int, mode: RoundType)
    requires FirstRoundingAt(x, r, e, mode) && IsHalfMode(mode) && SetScale(r, scale, mode).Ok?
    ensures RoundToScale(Value(r), scale, mode) == RoundToScale(x, scale, mode) <==> !WrongTie(x, Value(r), scale, mode)
  {
    hide Pow10, TenTo, Value, Units, Round, Over, SetScale, RoundMagnitude, Floor, Abs;
    UnitsAreNested(x, r, e, scale, mode);
    UnitRatio(-scale - e);
    HalfTwice(Units(x, e), TenTo(-scale - e), mode);
    SameMultiple(Round(Units(Value(r), -scale), mode), Round(Units(x, -scale), mode), -scale);
  }
}
