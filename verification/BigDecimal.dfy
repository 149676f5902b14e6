/** `BigDecimal` over an `mpd_*` layer that follows the General Decimal Arithmetic Specification: exact results
    are rounded to 99 digits by the context, and `SetScale` quantizes. Numbers are finite; a zero has no sign. */
module BigDecimal {
  import opened Rounding

  /** `coef * 10^exp`. */
  datatype Dec = Dec(coef: int, exp: int)

  const MAX_PREC: nat := 99
  const SSGX_MAX_EXP: int := 9_999_999_999
  const SSGX_MIN_EXP: int := -9_999_999_999

  // ---- powers of ten -----------------------------------------------------------------------------

  function TenTo(n: nat): (t: int)
    ensures t >= 1
  {
    if n == 0 then 1 else 10 * TenTo(n - 1)
  }

  function Pow10(e: int): (p: real)
    ensures p > 0.0
    decreases if e < 0 then -e else e
  {
    if e == 0 then 1.0 else if e > 0 then 10.0 * Pow10(e - 1) else Pow10(e + 1) / 10.0
  }

  /** `x` counted in units of `10^e`. */
  function Units(x: real, e: int): real { x / Pow10(e) }

  function Value(d: Dec): real { d.coef as real * Pow10(d.exp) }

  /** At most 99 digits. */
  predicate Fits(coef: int) { -TenTo(MAX_PREC) < coef < TenTo(MAX_PREC) }

  // ---- contexts ----------------------------------------------------------------------------------

  datatype Context = Context(round: RoundType, emax: int, emin: int)

  /** `SetDefaultContext`. */
  const DefaultContext := Context(RoundHalfUp, SSGX_MAX_EXP, SSGX_MIN_EXP)

  /** The status bits of a context: rounding, and all others together. */
  datatype Status = Status(rounded: bool, inexact: bool, other: bool)

  const Clean := Status(false, false, false)

  /** Whether `CheckContextStatus` leaves its error string empty. */
  predicate CheckContextStatus(s: Status, ignoreRounding: bool) {
    !s.other && (ignoreRounding || (!s.inexact && !s.rounded))
  }

  /** A `Precision`: the exponent range is whatever `mpd_init` sets up. */
  datatype Precision = Precision(ctx: Context, scale: int)

  datatype Result<T> = Ok(value: T) | Thrown

  // ---- the mpd layer -----------------------------------------------------------------------------

  /** The exponent at which a magnitude has 99 digits before the point. */
  predicate IsLeading(x: real, e: int) {
    Pow10(MAX_PREC - 1) <= Units(Abs(x), e) < Pow10(MAX_PREC)
  }

  ghost function Leading(x: real): (e: int)
    requires x != 0.0
    ensures IsLeading(x, e)
  {
    LeadingExists(x);
    var e :| IsLeading(x, e);
    e
  }

  /** A coefficient rounded up to a hundred digits moves to the next exponent. */
  function Carried(n: int, e: int): Dec {
    if n == TenTo(MAX_PREC) then Dec(TenTo(MAX_PREC - 1), e + 1)
    else if n == -TenTo(MAX_PREC) then Dec(-TenTo(MAX_PREC - 1), e + 1)
    else Dec(n, e)
  }

  /** Correct rounding of a number to 99 digits. */
  ghost function RoundToPrecision(x: real, round: RoundType): Dec {
    if x == 0.0 then Dec(0, 0)
    else
      var e := Leading(x);
      Carried(Round(Units(x, e), round), e)
  }

  /** The exponent of the first digit is in the range of the context; a zero is not clamped. */
  ghost predicate InRange(d: Dec, ctx: Context) {
    if d.coef == 0 then ctx.emin - (MAX_PREC - 1) <= d.exp <= ctx.emax
    else ctx.emin <= Leading(Value(d)) + (MAX_PREC - 1) <= ctx.emax
  }

  /** An exact result leaves as it is when it has at most 99 digits, and is rounded otherwise. */
  ghost function Finalize(d: Dec, ctx: Context): (Dec, Status) {
    if Fits(d.coef) then (d, Status(false, false, !InRange(d, ctx)))
    else
      var r := RoundToPrecision(Value(d), ctx.round);
      (r, Status(true, Value(r) != Value(d), !InRange(r, ctx)))
  }

  function Min(a: int, b: int): int { if a <= b then a else b }

  /** The coefficient at a lower exponent. */
  function CoefAt(d: Dec, e: int): int
    requires e <= d.exp
  {
    d.coef * TenTo(d.exp - e)
  }

  function ExactSum(a: Dec, b: Dec): Dec {
    var e := Min(a.exp, b.exp);
    Dec(CoefAt(a, e) + CoefAt(b, e), e)
  }

  function Negated(a: Dec): Dec { Dec(-a.coef, a.exp) }

  function ExactProduct(a: Dec, b: Dec): Dec { Dec(a.coef * b.coef, a.exp + b.exp) }

  ghost function MpdAdd(a: Dec, b: Dec, ctx: Context): (Dec, Status) { Finalize(ExactSum(a, b), ctx) }

  ghost function MpdSub(a: Dec, b: Dec, ctx: Context): (Dec, Status) { Finalize(ExactSum(a, Negated(b)), ctx) }

  ghost function MpdMul(a: Dec, b: Dec, ctx: Context): (Dec, Status) { Finalize(ExactProduct(a, b), ctx) }

  /** The correctly rounded quotient; dividing by zero raises a condition. */
  ghost function MpdDiv(a: Dec, b: Dec, ctx: Context): (Dec, Status) {
    if b.coef == 0 then (Dec(0, 0), Status(false, false, true))
    else if a.coef == 0 then (Dec(0, a.exp - b.exp), Status(false, false, !InRange(Dec(0, a.exp - b.exp), ctx)))
    else
      ValueNonZero(b);
      var x := Value(a) / Value(b);
      var r := RoundToPrecision(x, ctx.round);
      (r, Status(Value(r) != x, Value(r) != x, !InRange(r, ctx)))
  }

  /** Rounding to a multiple of `10^q`: invalid when the coefficient would need more than 99 digits. */
  ghost function MpdQuantize(d: Dec, q: int, ctx: Context): (Dec, Status) {
    var r := Dec(Round(Units(Value(d), q), ctx.round), q);
    if Fits(r.coef) && InRange(r, ctx) then (r, Status(Value(r) != Value(d), Value(r) != Value(d), false))
    else (Dec(0, 0), Status(false, false, true))
  }

  // ---- BigDecimal --------------------------------------------------------------------------------

  ghost function Checked(r: (Dec, Status), ignoreRounding: bool): Result<Dec> {
    if CheckContextStatus(r.1, ignoreRounding) then Ok(r.0) else Thrown
  }

  ghost function Add(a: Dec, b: Dec): Result<Dec> { Checked(MpdAdd(a, b, DefaultContext), false) }

  ghost function Sub(a: Dec, b: Dec): Result<Dec> { Checked(MpdSub(a, b, DefaultContext), false) }

  ghost function Multiply(a: Dec, b: Dec): Result<Dec> { Checked(MpdMul(a, b, DefaultContext), false) }

  ghost function Div(a: Dec, b: Dec): Result<Dec> { Checked(MpdDiv(a, b, DefaultContext), false) }

  /** `SetScale`: the quantum `1e-scale` must itself be in range. */
  ghost function SetScale(d: Dec, scale: int, round: RoundType): Result<Dec> {
    if scale >= MAX_PREC || !(SSGX_MIN_EXP <= -scale <= SSGX_MAX_EXP) then Thrown
    else Checked(MpdQuantize(d, -scale, DefaultContext.(round := round)), true)
  }

  /** The second half of the scaled operations. */
  ghost function Rescaled(r: Result<Dec>, p: Precision): Result<Dec> {
    if r.Thrown? then Thrown else SetScale(r.value, p.scale, p.ctx.round)
  }

  ghost function AddScaled(a: Dec, b: Dec, p: Precision): Result<Dec> {
    Rescaled(Checked(MpdAdd(a, b, p.ctx), true), p)
  }

  ghost function SubScaled(a: Dec, b: Dec, p: Precision): Result<Dec> {
    Rescaled(Checked(MpdSub(a, b, p.ctx), true), p)
  }

  ghost function MultiplyScaled(a: Dec, b: Dec, p: Precision): Result<Dec> {
    Rescaled(Checked(MpdMul(a, b, p.ctx), true), p)
  }

  ghost function DivScaled(a: Dec, b: Dec, p: Precision): Result<Dec> {
    Rescaled(Checked(MpdDiv(a, b, p.ctx), true), p)
  }

  /** `Neg`: zero minus the number, ignoring rounding. */
  ghost function Neg(a: Dec): Result<Dec> { Checked(MpdSub(Dec(0, 0), a, DefaultContext), true) }

  /** `Compare`, by aligned coefficients. */
  function Compare(a: Dec, b: Dec): int {
    var d := ExactSum(a, Negated(b)).coef;
    if d < 0 then -1 else if d > 0 then 1 else 0
  }

  // ---- arithmetic of powers ----------------------------------------------------------------------

  lemma {:induction false} Pow10Step(e: int)
    ensures Pow10(e + 1) == 10.0 * Pow10(e)
  {
    if e < 0 {
      assert Pow10(e) == Pow10(e + 1) / 10.0;
    }
  }

  lemma Pow10Zero()
    ensures Pow10(0) == 1.0
  {
  }

  lemma {:induction false} Pow10Add(n: nat, a: int)
    ensures Pow10(n + a) == Pow10(n) * Pow10(a)
    decreases n
  {
    hide Pow10;
    if n == 0 {
      Pow10Zero();
    } else {
      Pow10Add(n - 1, a);
      var less, low := Pow10(n - 1 + a), Pow10(n - 1);
      assert Pow10(n + a) == 10.0 * less by {
        Pow10Step(n - 1 + a);
      }
      assert Pow10(n) == 10.0 * low by {
        Pow10Step(n - 1);
      }
      TenTimes(Pow10(n + a), less, Pow10(n), low, Pow10(a));
    }
  }

  lemma TenTimes(sum: real, less: real, high: real, low: real, p: real)
    requires sum == 10.0 * less && high == 10.0 * low && less == low * p
    ensures sum == high * p
  {
    assert (10.0 * low) * p == 10.0 * (low * p);
  }

  lemma {:induction false} TenToIsPow10(n: nat)
    ensures TenTo(n) as real == Pow10(n)
  {
    if n > 0 {
      TenToIsPow10(n - 1);
    }
  }

  lemma {:induction false} Pow10Monotone(a: int, b: int)
    requires a < b
    ensures 10.0 * Pow10(a) <= Pow10(b)
    decreases b - a
  {
    Pow10Step(a);
    if a + 1 < b {
      Pow10Monotone(a + 1, b);
    }
  }

  lemma {:induction false} Pow10AtLeast(n: nat)
    ensures Pow10(n) >= n as real + 1.0
  {
    if n > 0 {
      Pow10AtLeast(n - 1);
    }
  }

  lemma {:induction false} Pow10Inverse(n: int)
    requires n >= 0
    ensures Pow10(-n) * Pow10(n) == 1.0
  {
    if n > 0 {
      Pow10Inverse(n - 1);
      var p, q := Pow10(-n + 1), Pow10(n - 1);
      assert Pow10(-n) == p / 10.0 && Pow10(n) == 10.0 * q;
      assert (p / 10.0) * (10.0 * q) == p * q;
    }
  }

  lemma ValueNonZero(d: Dec)
    requires d.coef != 0
    ensures Value(d) != 0.0
  {
  }

  // ---- every number has a leading exponent -------------------------------------------------------

  lemma QuotientBounds(x: real, p: real, low: real, high: real)
    requires p > 0.0 && low * p <= x < high * p
    ensures low <= x / p < high
  {
    Unscale(low, x, p);
    UnscaleStrict(x, high, p);
  }

  lemma {:induction false} Descend(x: real, e: int, bottom: int) returns (top: int)
    requires x > 0.0 && x < Pow10(e) && Pow10(bottom) <= x
    ensures Pow10(top - 1) <= x < Pow10(top)
    decreases e - bottom
  {
    if e <= bottom {
      if e < bottom {
        Pow10Monotone(e, bottom);
      }
      top := e;
    } else if x < Pow10(e - 1) {
      top := Descend(x, e - 1, bottom);
    } else {
      top := e;
    }
  }

  lemma ReciprocalBelow(y: real) returns (bottom: int)
    requires y > 0.0
    ensures bottom <= 0 && Pow10(bottom) <= y
  {
    var u := 1.0 / y;
    assert u * y == 1.0 && u > 0.0;
    var m := Floor(u);
    Pow10AtLeast(m);
    Pow10Inverse(m);
    bottom := -m;
    SmallReciprocal(Pow10(bottom), Pow10(m), u, y);
  }

  lemma SmallReciprocal(p: real, q: real, u: real, y: real)
    requires y > 0.0 && u * y == 1.0 && q > u && p * q == 1.0 && p > 0.0
    ensures p <= y
  {
    assert (q - u) * y == q * y - u * y;
    assert (q - u) * y > 0.0;
    assert p * (q * y) == (p * q) * y == y;
    var t := q * y - 1.0;
    assert p * t == p * (q * y) - p;
    MulPositive(p, t);
  }

  lemma MulPositive(a: real, b: real)
    requires a > 0.0 && b > 0.0
    ensures a * b > 0.0
  {
  }

  lemma DecadeQuotient(y: real, e: int, n: nat)
    requires n >= 1 && Pow10(n - 1 + e) <= y < Pow10(n + e)
    ensures Pow10(n - 1) <= Units(y, e) < Pow10(n)
  {
    hide Pow10;
    Pow10Add(n, e);
    Pow10Add(n - 1, e);
    QuotientBounds(y, Pow10(e), Pow10(n - 1), Pow10(n));
  }

  lemma LeadingOfDecade(x: real, top: int)
    requires x != 0.0 && Pow10(top - 1) <= Abs(x) < Pow10(top)
    ensures IsLeading(x, top - MAX_PREC)
  {
    DecadeQuotient(Abs(x), top - MAX_PREC, MAX_PREC);
  }

  lemma LeadingExists(x: real)
    requires x != 0.0
    ensures exists e :: IsLeading(x, e)
  {
    var y := Abs(x);
    Pow10AtLeast(Floor(y));
    var bottom := ReciprocalBelow(y);
    var top := Descend(y, Floor(y), bottom);
    LeadingOfDecade(x, top);
  }
}
