/** Rounding reals to integers in the nine modes of the General Decimal Arithmetic Specification, and what
    rounding twice does. */
module Rounding {

  /** `RoundType`, in the order of its values. */
  datatype RoundType =
    | RoundUp
    | RoundDown
    | RoundCeiling
    | RoundFloor
    | RoundHalfUp
    | RoundHalfDown
    | RoundHalfEven
    | Round05Up
    | RoundTrunc

  predicate IsHalfMode(mode: RoundType) { mode.RoundHalfUp? || mode.RoundHalfDown? || mode.RoundHalfEven? }

  function Floor(y: real): (n: int)
    ensures n as real <= y < n as real + 1.0
  {
    y.Floor
  }

  function Abs(y: real): real { if y < 0.0 then -y else y }

  /** Rounding a magnitude: `up` is the mode's choice among the integers on its two sides. */
  function RoundMagnitude(y: real, mode: RoundType): (r: int)
    requires y >= 0.0 && !mode.RoundCeiling? && !mode.RoundFloor?
    ensures r >= 0 && (r == Floor(y) || (r == Floor(y) + 1 && y != Floor(y) as real))
  {
    var n := Floor(y);
    var part := y - n as real;
    var up := match mode
      case RoundUp => part > 0.0
      case RoundDown => false
      case RoundTrunc => false
      case RoundHalfUp => part >= 0.5
      case RoundHalfDown => part > 0.5
      case RoundHalfEven => part > 0.5 || (part == 0.5 && n % 2 == 1)
      case Round05Up => part > 0.0 && n % 5 == 0
      case _ => false;
    if up then n + 1 else n
  }

  function Round(y: real, mode: RoundType): int {
    match mode
    case RoundFloor => Floor(y)
    case RoundCeiling => -Floor(-y)
    case _ => if y >= 0.0 then RoundMagnitude(y, mode) else -RoundMagnitude(-y, mode)
  }

  // ---- one rounding ------------------------------------------------------------------------------

  lemma FloorUnique(y: real, n: int)
    requires n as real <= y < n as real + 1.0
    ensures Floor(y) == n
  {
  }

  /** Integers are left alone. */
  lemma RoundInteger(n: int, mode: RoundType)
    ensures Round(n as real, mode) == n
  {
    FloorUnique(n as real, n);
    FloorUnique(-(n as real), -n);
    assert -(n as real) == (-n) as real;
  }

  /** A rounding is less than one away, and at most a half away in the half modes. */
  lemma RoundClose(y: real, mode: RoundType)
    ensures Abs(Round(y, mode) as real - y) < 1.0
    ensures IsHalfMode(mode) ==> Abs(Round(y, mode) as real - y) <= 0.5
  {
  }

  /** What a mode promises for a magnitude, said without computing: the neighbour it picks and how it breaks
      ties. */
  predicate PicksMagnitude(y: real, n: int, mode: RoundType) {
    var r := n as real;
    match mode
    case RoundDown => r <= y < r + 1.0
    case RoundTrunc => r <= y < r + 1.0
    case RoundUp => r - 1.0 < y <= r
    case RoundHalfUp => r - 0.5 <= y < r + 0.5
    case RoundHalfDown => r - 0.5 < y <= r + 0.5
    case RoundHalfEven => r - 0.5 <= y <= r + 0.5 && (y == r - 0.5 || y == r + 0.5 ==> n % 2 == 0)
    case Round05Up => (r <= y < r + 1.0 && (r == y || n % 5 != 0)) || (r - 1.0 < y < r && (n - 1) % 5 == 0)
    case _ => false
  }

  predicate IsRounding(y: real, n: int, mode: RoundType) {
    match mode
    case RoundFloor => n as real <= y < n as real + 1.0
    case RoundCeiling => n as real - 1.0 < y <= n as real
    case _ => if y >= 0.0 then n >= 0 && PicksMagnitude(y, n, mode) else n <= 0 && PicksMagnitude(-y, -n, mode)
  }

  lemma DirectedIsPicked(y: real, n: int, mode: RoundType)
    requires y >= 0.0 && (mode.RoundDown? || mode.RoundTrunc? || mode.RoundUp? || mode.Round05Up?)
    ensures n >= 0 && PicksMagnitude(y, n, mode) <==> n == RoundMagnitude(y, mode)
  {
    match mode
    case RoundDown =>
    case RoundTrunc =>
    case RoundUp =>
    case Round05Up =>
  }

  lemma HalfIsPicked(y: real, n: int, mode: RoundType)
    requires y >= 0.0 && IsHalfMode(mode)
    ensures n >= 0 && PicksMagnitude(y, n, mode) <==> n == RoundMagnitude(y, mode)
  {
    match mode
    case RoundHalfUp =>
    case RoundHalfDown =>
    case RoundHalfEven =>
  }

  lemma MagnitudeIsPicked(y: real, n: int, mode: RoundType)
    requires y >= 0.0 && !mode.RoundCeiling? && !mode.RoundFloor?
    ensures n >= 0 && PicksMagnitude(y, n, mode) <==> n == RoundMagnitude(y, mode)
  {
    hide PicksMagnitude, RoundMagnitude;
    if IsHalfMode(mode) {
      HalfIsPicked(y, n, mode);
    } else {
      DirectedIsPicked(y, n, mode);
    }
  }

  /** The rounding functions compute what the modes promise, and nothing else meets the promise. */
  lemma RoundIsRounding(y: real, n: int, mode: RoundType)
    ensures IsRounding(y, n, mode) <==> n == Round(y, mode)
  {
    hide RoundMagnitude, PicksMagnitude;
    match mode
    case RoundFloor =>
    case RoundCeiling =>
    case _ =>
      if y >= 0.0 {
        MagnitudeIsPicked(y, n, mode);
      } else {
        MagnitudeIsPicked(-y, -n, mode);
      }
  }

  // ---- two roundings -----------------------------------------------------------------------------

  /** A count of small units as a count of units `k` times as large. */
  function Over(z: real, k: int): real
    requires k > 0
  {
    z / k as real
  }

  lemma Bracket(z: real, k: int)
    requires k > 0
    ensures var m := Floor(Over(z, k)); (m * k) as real <= z < (m * k + k) as real
  {
    var kr := k as real;
    var m := Floor(z / kr);
    RealProduct(m, k);
    Scale(m as real, z, kr);
    ScaleStrict(z, m as real + 1.0, kr);
    assert (m as real + 1.0) * kr == m as real * kr + kr;
  }

  lemma FloorInBracket(z: real, k: int, m: int)
    requires k > 0 && (m * k) as real <= z < (m * k + k) as real
    ensures Floor(Over(z, k)) == m
  {
    var kr := k as real;
    RealProduct(m, k);
    assert (m as real + 1.0) * kr == m as real * kr + kr;
    Unscale(m as real, z, kr);
    UnscaleStrict(z, m as real + 1.0, kr);
    FloorUnique(z / kr, m);
  }

  /** `k` units of the first rounding make one unit of the second. */
  lemma FloorOfFloor(z: real, k: int)
    requires k > 0
    ensures Floor(Over(Floor(z) as real, k)) == Floor(Over(z, k))
  {
    var m := Floor(Over(z, k));
    Bracket(z, k);
    FloorBetween(z, m * k, m * k + k);
    FloorInBracket(Floor(z) as real, k, m);
  }

  lemma FloorBetween(z: real, low: int, high: int)
    requires low as real <= z < high as real
    ensures low as real <= Floor(z) as real < high as real
  {
    var n := Floor(z);
    assert low as real < (n + 1) as real;
    assert low < n + 1;
    assert n as real < high as real;
  }

  lemma Scale(a: real, z: real, k: real)
    requires k > 0.0 && a <= z / k
    ensures a * k <= z
  {
    assert z == (z / k) * k;
  }

  lemma ScaleStrict(z: real, b: real, k: real)
    requires k > 0.0 && z / k < b
    ensures z < b * k
  {
    assert z == (z / k) * k;
  }

  lemma Unscale(a: real, z: real, k: real)
    requires k > 0.0 && a * k <= z
    ensures a <= z / k
  {
    assert z == (z / k) * k;
  }

  lemma UnscaleStrict(z: real, b: real, k: real)
    requires k > 0.0 && z < b * k
    ensures z / k < b
  {
    assert z == (z / k) * k;
  }

  /** The number of small units in a large one when both are powers of ten. */
  predicate IsUnitRatio(k: int) { k == 1 || (k > 0 && k % 10 == 0) }

  lemma RoundUpIsCeiling(y: real)
    requires y >= 0.0
    ensures RoundMagnitude(y, RoundUp) == -Floor(-y)
  {
    var n := Floor(y);
    if y == n as real {
      FloorUnique(-y, -n);
    } else {
      FloorUnique(-y, -n - 1);
    }
  }

  lemma NegateQuotient(z: real, k: int)
    requires k > 0
    ensures -Over(z, k) == Over(-z, k)
  {
  }

  lemma MulMonotone(a: int, b: int, k: int)
    requires k > 0 && a <= b
    ensures a * k <= b * k
  {
  }

  lemma QuotientUnique(n: int, k: int, q: int, r: int)
    requires k > 0 && n == q * k + r && 0 <= r < k
    ensures n / k == q && n % k == r
  {
    var q' := n / k;
    QuotientRemainder(n, k);
    assert (q + 1) * k == q * k + k && (q' + 1) * k == q' * k + k;
    if q < q' {
      MulMonotone(q + 1, q', k);
    } else if q' < q {
      MulMonotone(q' + 1, q, k);
    }
  }

  lemma RealProduct(a: int, k: int)
    ensures (a * k) as real == a as real * k as real
  {
  }

  /** A count of small units is a whole number of large units exactly when it is a multiple of the ratio. */
  lemma WholeQuotient(n: int, k: int)
    requires k > 0
    ensures Over(n as real, k) == Floor(Over(n as real, k)) as real <==> n % k == 0
  {
    var kr, q := k as real, n / k;
    var m := Floor(n as real / kr);
    if n % k == 0 {
      assert n == q * k;
      RealProduct(q, k);
      assert n as real / kr == q as real;
      FloorUnique(n as real / kr, q);
    } else if n as real / kr == m as real {
      assert n as real == (n as real / kr) * kr;
      RealProduct(m, k);
      QuotientUnique(n, k, m, 0);
    }
  }

  lemma StickyDigit(z: real, k: int)
    requires z >= 0.0 && k > 0 && k % 10 == 0
    ensures var r := RoundMagnitude(z, Round05Up);
            && r / k == Floor(z) / k
            && (r % k == 0 <==> (z == Floor(z) as real && Floor(z) % k == 0))
  {
    var n := Floor(z);
    var r := RoundMagnitude(z, Round05Up);
    StickyChoice(z);
    hide RoundMagnitude;
    if r == n + 1 {
      StickyQuotient(n, k);
    } else if z != n as real {
      NotMultiple(n, k);
    }
  }

  /** The 05up mode goes up exactly from a last digit of zero or five. */
  lemma StickyChoice(z: real)
    requires z >= 0.0
    ensures var n := Floor(z);
            RoundMagnitude(z, Round05Up) == if z != n as real && n % 5 == 0 then n + 1 else n
  {
  }

  lemma NotMultiple(n: int, k: int)
    requires k > 0 && k % 10 == 0 && n % 5 != 0
    ensures n % k != 0
  {
    if n % k == 0 {
      MultipleOfTen(n, k);
      FiveInTen(n);
    }
  }

  lemma MultipleOfTen(n: int, k: int)
    requires k > 0 && k % 10 == 0
    ensures (n % k) % 10 == n % 10
  {
    var q, r, j := n / k, n % k, k / 10;
    TensOfProduct(q, k, j);
    QuotientRemainder(n, k);
    SameLastDigit(n, q * j, r);
  }

  lemma QuotientRemainder(n: int, k: int)
    requires k > 0
    ensures n == (n / k) * k + n % k
  {
  }

  lemma TensOfProduct(q: int, k: int, j: int)
    requires k == 10 * j
    ensures q * k == 10 * (q * j)
  {
  }

  lemma SameLastDigit(n: int, m: int, r: int)
    requires n == 10 * m + r
    ensures n % 10 == r % 10
  {
  }

  lemma FiveInTen(n: int)
    ensures n % 5 == n % 10 % 5
  {
  }

  lemma StickyQuotient(n: int, k: int)
    requires n >= 0 && k > 0 && k % 10 == 0 && n % 5 == 0
    ensures (n + 1) / k == n / k && (n + 1) % k != 0
  {
    var q, r := n / k, n % k;
    MultipleOfTen(n, k);
    FiveInTen(n);
    NotLast(r, k);
    QuotientRemainder(n, k);
    QuotientUnique(n + 1, k, q, r + 1);
  }

  lemma NotLast(r: int, k: int)
    requires 0 <= r < k && k % 10 == 0 && r % 10 % 5 == 0
    ensures r + 1 < k
  {
  }

  lemma FloorOfQuotient(n: int, k: int)
    requires k > 0
    ensures Floor(Over(n as real, k)) == n / k
  {
    var kr := k as real;
    var q := n / k;
    assert n as real == q as real * kr + (n % k) as real;
    Unscale(q as real, n as real, kr);
    assert (q as real + 1.0) * kr == q as real * kr + kr;
    UnscaleStrict(n as real, q as real + 1.0, kr);
    FloorUnique(n as real / kr, q);
  }

  // ---- the directed modes ------------------------------------------------------------------------

  lemma StickyTwice(z: real, k: int)
    requires z >= 0.0 && k > 0 && k % 10 == 0
    ensures RoundMagnitude(Over(RoundMagnitude(z, Round05Up) as real, k), Round05Up)
         == RoundMagnitude(Over(z, k), Round05Up)
  {
    var r, n := RoundMagnitude(z, Round05Up), Floor(z);
    StickyDigit(z, k);
    FloorOfQuotient(r, k);
    FloorOfQuotient(n, k);
    FloorOfFloor(z, k);
    WholeQuotient(r, k);
    WholeIff(z, k);
  }

  lemma WholeMultiple(z: real, k: int, m: int)
    requires k > 0 && Over(z, k) == m as real
    ensures Floor(z) as real == z
  {
    assert z == (Over(z, k)) * k as real;
    RealProduct(m, k);
    FloorUnique(z, m * k);
  }

  lemma WholeIff(z: real, k: int)
    requires k > 0
    ensures Over(z, k) == Floor(Over(z, k)) as real <==> z == Floor(z) as real && Floor(z) % k == 0
  {
    var kr, m := k as real, Floor(Over(z, k));
    if z == Floor(z) as real {
      WholeQuotient(Floor(z), k);
    } else if z / kr == m as real {
      WholeMultiple(z, k, m);
    }
  }

  lemma UpTwice(z: real, k: int)
    requires z >= 0.0 && k > 0 && Over(z, k) >= 0.0 && Over(RoundMagnitude(z, RoundUp) as real, k) >= 0.0
    ensures RoundMagnitude(Over(RoundMagnitude(z, RoundUp) as real, k), RoundUp)
         == RoundMagnitude(Over(z, k), RoundUp)
  {
    var r := RoundMagnitude(z, RoundUp);
    RoundUpIsCeiling(z);
    RoundUpIsCeiling(Over(z, k));
    RoundUpIsCeiling(Over(r as real, k));
    NegateQuotient(z, k);
    NegateQuotient(r as real, k);
    FloorOfFloor(-z, k);
  }

  lemma MagnitudeTwice(z: real, k: int, mode: RoundType)
    requires z >= 0.0 && IsUnitRatio(k)
    requires mode.RoundUp? || mode.RoundDown? || mode.RoundTrunc? || mode.Round05Up?
    requires Over(z, k) >= 0.0 && Over(RoundMagnitude(z, mode) as real, k) >= 0.0
    ensures RoundMagnitude(Over(RoundMagnitude(z, mode) as real, k), mode) == RoundMagnitude(Over(z, k), mode)
  {
    if mode.RoundUp? {
      hide Over, RoundMagnitude;
      UpTwice(z, k);
    } else if mode.Round05Up? {
      if k == 1 {
        StickyWhole(z, k);
      } else {
        hide Over, RoundMagnitude;
        StickyTwice(z, k);
      }
    } else {
      SignOfQuotient(z, k);
      SignOfQuotient(Floor(z) as real, k);
      hide Over;
      DownTwice(z, k, mode);
    }
  }

  lemma StickyWhole(z: real, k: int)
    requires z >= 0.0 && k == 1
    ensures Over(z, k) == z
    ensures RoundMagnitude(Over(RoundMagnitude(z, Round05Up) as real, k), Round05Up) == RoundMagnitude(z, Round05Up)
  {
    var r := RoundMagnitude(z, Round05Up);
    assert Over(r as real, k) == r as real;
    FloorUnique(r as real, r);
  }

  lemma DownTwice(z: real, k: int, mode: RoundType)
    requires z >= 0.0 && k > 0 && (mode.RoundDown? || mode.RoundTrunc?)
    requires Over(z, k) >= 0.0 && Over(Floor(z) as real, k) >= 0.0
    ensures RoundMagnitude(z, mode) == Floor(z)
    ensures RoundMagnitude(Over(Floor(z) as real, k), mode) == RoundMagnitude(Over(z, k), mode)
  {
    hide Over;
    FloorOfFloor(z, k);
  }

  /** In a directed mode, and in the 05up mode, rounding first to a small unit and then to a large one is rounding
      once to the large one. */
  lemma DirectedTwice(z: real, k: int, mode: RoundType)
    requires IsUnitRatio(k) && !IsHalfMode(mode)
    ensures Round(Over(Round(z, mode) as real, k), mode) == Round(Over(z, k), mode)
  {
    var r := Round(z, mode);
    NegateQuotient(z, k);
    NegateQuotient(r as real, k);
    hide RoundMagnitude, Over;
    if mode.RoundFloor? {
      FloorOfFloor(z, k);
    } else if mode.RoundCeiling? {
      assert (-r) as real == -(r as real);
      FloorOfFloor(-z, k);
    } else if z >= 0.0 {
      PositiveTwice(z, k, mode);
    } else {
      PositiveTwice(-z, k, mode);
      assert (-r) as real == -(r as real);
      SignOfQuotient(-z, k);
      SignOfQuotient(-r as real, k);
      NegativeRound(Over(z, k), mode);
      NegativeRound(Over(r as real, k), mode);
    }
  }

  lemma NegativeRound(y: real, mode: RoundType)
    requires y <= 0.0 && !mode.RoundFloor? && !mode.RoundCeiling?
    ensures Round(y, mode) == -RoundMagnitude(-y, mode)
  {
    if y == 0.0 {
      FloorUnique(0.0, 0);
    }
  }

  lemma PositiveTwice(z: real, k: int, mode: RoundType)
    requires z >= 0.0 && IsUnitRatio(k)
    requires mode.RoundUp? || mode.RoundDown? || mode.RoundTrunc? || mode.Round05Up?
    ensures Over(z, k) >= 0.0 && Over(RoundMagnitude(z, mode) as real, k) >= 0.0
    ensures RoundMagnitude(Over(RoundMagnitude(z, mode) as real, k), mode) == RoundMagnitude(Over(z, k), mode)
  {
    SignOfQuotient(z, k);
    SignOfQuotient(RoundMagnitude(z, mode) as real, k);
    hide Over, RoundMagnitude;
    MagnitudeTwice(z, k, mode);
  }

  lemma SignOfQuotient(z: real, k: int)
    requires z >= 0.0 && k > 0
    ensures Over(z, k) >= 0.0
    ensures z > 0.0 ==> Over(z, k) > 0.0
  {
  }

  // ---- the half modes ----------------------------------------------------------------------------

  /** The first rounding moved the magnitude `y` onto the tie `y1`, and the mode breaks ties at `y1` away from where it
      came: up for half-up, down for half-down, to the even side for half-even. */
  predicate TieBrokenWrongly(y: real, y1: real, mode: RoundType)
    requires y >= 0.0 && y1 >= 0.0 && IsHalfMode(mode)
  {
    && y1 - Floor(y1) as real == 0.5
    && match mode
       case RoundHalfUp => y < y1
       case RoundHalfDown => y > y1
       case _ => if Floor(y1) % 2 == 1 then y < y1 else y > y1
  }

  /** Rounding to the nearest does not cross an integer. */
  lemma NearestKeepsSide(z: real, n: int, mode: RoundType)
    requires z >= 0.0 && IsHalfMode(mode)
    ensures z <= n as real ==> RoundMagnitude(z, mode) <= n
    ensures z >= n as real ==> RoundMagnitude(z, mode) >= n
  {
  }

  /** Where `z` lies among the large units, told by small ones. */
  lemma PlaceOf(z: real, k: int, m: int)
    requires k > 0 && k % 2 == 0 && (m * k) as real <= z < (m * k + k) as real
    ensures var part := Over(z, k) - m as real;
            && Floor(Over(z, k)) == m
            && (part < 0.5 <==> z < (m * k + k / 2) as real)
            && (part == 0.5 <==> z == (m * k + k / 2) as real)
  {
    var kr := k as real;
    RealProduct(m, k);
    var d := z - m as real * kr;
    assert z / kr == m as real + d / kr by {
      assert z == (m as real + d / kr) * kr;
    }
    PartOf(d, kr);
    FloorUnique(z / kr, m);
  }

  lemma PartOf(d: real, k: real)
    requires k > 0.0 && 0.0 <= d < k
    ensures 0.0 <= d / k < 1.0
    ensures d / k < 0.5 <==> d < k / 2.0
    ensures d / k == 0.5 <==> d == k / 2.0
  {
    Unscale(0.0, d, k);
    UnscaleStrict(d, 1.0, k);
    if d < k / 2.0 {
      UnscaleStrict(d, 0.5, k);
    } else {
      Unscale(0.5, d, k);
      assert d == (d / k) * k;
    }
  }

  /** A magnitude and its first rounding, within one large unit and on the same side of its middle. */
  lemma HalfChoice(y: real, y1: real, m: int, mode: RoundType)
    requires IsHalfMode(mode) && m >= 0
    requires m as real <= y < m as real + 1.0 && m as real <= y1 < m as real + 1.0
    requires y < m as real + 0.5 ==> y1 <= m as real + 0.5
    requires y > m as real + 0.5 ==> y1 >= m as real + 0.5
    requires y == m as real + 0.5 ==> y1 == y
    ensures RoundMagnitude(y1, mode) == RoundMagnitude(y, mode) <==> !TieBrokenWrongly(y, y1, mode)
  {
    FloorUnique(y, m);
    FloorUnique(y1, m);
  }

  /** With a half mode, rounding twice is rounding once exactly when no tie is broken wrongly. */
  lemma HalfMagnitudeTwice(z: real, k: int, mode: RoundType)
    requires z >= 0.0 && k > 0 && k % 10 == 0 && IsHalfMode(mode)
    requires Over(z, k) >= 0.0 && Over(RoundMagnitude(z, mode) as real, k) >= 0.0
    ensures RoundMagnitude(Over(RoundMagnitude(z, mode) as real, k), mode) == RoundMagnitude(Over(z, k), mode)
            <==> !TieBrokenWrongly(Over(z, k), Over(RoundMagnitude(z, mode) as real, k), mode)
  {
    hide RoundMagnitude, Over, TieBrokenWrongly;
    var m, r := Floor(Over(z, k)), RoundMagnitude(z, mode);
    Bracket(z, k);
    HalfPlace(z, k, m * k, mode);
    PlaceOf(z, k, m);
    if r < m * k + k {
      PlaceOf(r as real, k, m);
      HalfChoice(Over(z, k), Over(r as real, k), m, mode);
    } else {
      NextUnit(r, k, m, mode);
      AboveMiddle(Over(z, k), m, mode);
      NoTie(Over(z, k), Over(r as real, k), m + 1, mode);
    }
  }

  /** The first rounding stays in its large unit, or reaches its end, on the same side of its middle. */
  lemma HalfPlace(z: real, k: int, low: int, mode: RoundType)
    requires z >= 0.0 && k > 0 && k % 10 == 0 && IsHalfMode(mode)
    requires low as real <= z < (low + k) as real
    ensures var r := RoundMagnitude(z, mode);
            && low <= r <= low + k
            && (z < (low + k / 2) as real ==> r <= low + k / 2)
            && (z > (low + k / 2) as real ==> r >= low + k / 2)
            && (z == (low + k / 2) as real ==> r == low + k / 2)
            && k % 2 == 0
  {
    hide RoundMagnitude;
    NearestKeepsSide(z, low, mode);
    NearestKeepsSide(z, low + k / 2, mode);
    NearestKeepsSide(z, low + k, mode);
  }

  lemma NoTie(y: real, y1: real, n: int, mode: RoundType)
    requires y >= 0.0 && y1 == n as real && n >= 0 && IsHalfMode(mode)
    ensures !TieBrokenWrongly(y, y1, mode)
  {
    FloorUnique(y1, n);
  }

  lemma AboveMiddle(y: real, m: int, mode: RoundType)
    requires m >= 0 && m as real + 0.5 < y < m as real + 1.0 && IsHalfMode(mode)
    ensures RoundMagnitude(y, mode) == m + 1
  {
    FloorUnique(y, m);
  }

  lemma NextUnit(r: int, k: int, m: int, mode: RoundType)
    requires k > 0 && m >= 0 && r == m * k + k && IsHalfMode(mode) && Over(r as real, k) >= 0.0
    ensures Over(r as real, k) == (m + 1) as real
    ensures Floor(Over(r as real, k)) == m + 1 == RoundMagnitude(Over(r as real, k), mode)
  {
    assert r == (m + 1) * k;
    RealProduct(m + 1, k);
    FloorUnique((m + 1) as real, m + 1);
  }

  lemma AbsOver(z: real, k: int)
    requires k > 0
    ensures Abs(Over(z, k)) == Over(Abs(z), k) >= 0.0
    ensures z >= 0.0 <==> Over(z, k) >= 0.0
  {
    var kr := k as real;
    if z < 0.0 {
      NegateQuotient(z, k);
      UnscaleStrict(z, 0.0, kr);
    } else {
      Unscale(0.0, z, kr);
    }
  }

  lemma RoundBySign(y: real, mode: RoundType)
    requires IsHalfMode(mode)
    ensures Round(y, mode) == if y >= 0.0 then RoundMagnitude(Abs(y), mode) else -RoundMagnitude(Abs(y), mode)
    ensures Abs(Round(y, mode) as real) == RoundMagnitude(Abs(y), mode) as real
  {
  }

  lemma HalfWhole(r: int, k: int, y: real, mode: RoundType)
    requires k == 1 && IsHalfMode(mode)
    ensures Round(Over(r as real, k), mode) == r && !TieBrokenWrongly(Abs(y), Abs(Over(r as real, k)), mode)
  {
    RoundInteger(r, mode);
    assert Over(r as real, k) == r as real;
    FloorUnique(Abs(r as real), if r < 0 then -r else r);
  }

  /** In a half mode, rounding twice is rounding once exactly when no tie is broken wrongly. */
  lemma HalfTwice(z: real, k: int, mode: RoundType)
    requires IsUnitRatio(k) && IsHalfMode(mode)
    ensures Round(Over(Round(z, mode) as real, k), mode) == Round(Over(z, k), mode)
            <==> !TieBrokenWrongly(Abs(Over(z, k)), Abs(Over(Round(z, mode) as real, k)), mode)
  {
    var r := Round(z, mode);
    if k == 1 {
      HalfWhole(r, k, Over(z, k), mode);
      assert Over(z, k) == z;
    } else {
      RoundBySign(z, mode);
      AbsOver(z, k);
      AbsOver(r as real, k);
      RoundBySign(Over(z, k), mode);
      RoundBySign(Over(r as real, k), mode);
      HalfMagnitudeTwice(Abs(z), k, mode);
    }
  }
}
