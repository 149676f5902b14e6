/** Characters and numerals as the C library sees them: the character classes of the "C" locale,
    `std::to_string`, `strtol` and `atoi`. A C `char` is a Dafny `char`; codes from 128 up are the negative
    values of a signed `char` and belong to none of the ASCII classes. */
module Text {

  const TWO_31: int := 0x8000_0000
  const TWO_32: int := 0x1_0000_0000
  const TWO_63: int := 0x8000_0000_0000_0000
  const TWO_64: int := 0x1_0000_0000_0000_0000

  // ---- character classes -----------------------------------------------------------------------

  predicate IsDigit(c: char) { '0' <= c <= '9' }

  predicate IsAlpha(c: char) { 'a' <= c <= 'z' || 'A' <= c <= 'Z' }

  predicate IsAlnum(c: char) { IsDigit(c) || IsAlpha(c) }

  predicate IsSpace(c: char) { c == ' ' || '\t' <= c <= '\r' }

  /** A non-empty string in front of another, byte by byte. */
  lemma Uncons(s: string, rest: string)
    requires s != ""
    ensures s == [s[0]] + s[1..]
    ensures s + rest == [s[0]] + (s[1..] + rest)
  {
  }

  predicate AllDigits(s: string) { forall i :: 0 <= i < |s| ==> IsDigit(s[i]) }

  predicate AllAlnum(s: string) { forall i :: 0 <= i < |s| ==> IsAlnum(s[i]) }

  function ToLower(c: char): char {
    if 'A' <= c <= 'Z' then c + ' ' else c
  }

  /** `strcasecmp(a, b) == 0` for strings without NUL characters. */
  predicate EqualIgnoringCase(a: string, b: string) {
    |a| == |b| && forall i :: 0 <= i < |a| ==> ToLower(a[i]) == ToLower(b[i])
  }

  /** The same character, or one letter in its two cases: their codes differ by 32. */
  predicate SameLetter(x: char, y: char) {
    || x == y
    || (IsAlpha(x) && IsAlpha(y) && (x as int == y as int + 32 || y as int == x as int + 32))
  }

  predicate SameLetters(a: string, b: string) {
    |a| == |b| && forall i :: 0 <= i < |a| ==> SameLetter(a[i], b[i])
  }

  /** Ignoring case is looking at ASCII letters in their two cases as the same, and at nothing else. */
  lemma EqualIgnoringCaseExact(a: string, b: string)
    ensures EqualIgnoringCase(a, b) <==> SameLetters(a, b)
  {
    assert forall x, y :: ToLower(x) == ToLower(y) <==> SameLetter(x, y);
  }

  // ---- printing numbers ------------------------------------------------------------------------

  /** Value of a character as a digit of any base up to 36, or 36 when it is not alphanumeric. */
  function DigitValue(c: char): (v: nat)
    ensures IsDigit(c) ==> v < 10
    ensures v < 36 <==> IsAlnum(c)
  {
    if '0' <= c <= '9' then c as int - '0' as int
    else if 'a' <= c <= 'z' then c as int - 'a' as int + 10
    else if 'A' <= c <= 'Z' then c as int - 'A' as int + 10
    else 36
  }

  function Digit(v: nat): (c: char)
    requires v < 16
    ensures DigitValue(c) == v
    ensures v < 10 ==> IsDigit(c)
    ensures IsAlnum(c) && c != 'x' && c != 'X'
  {
    if v < 10 then '0' + v as char else 'a' + (v - 10) as char
  }

  function Quotient(n: nat, base: nat): (q: nat)
    requires base == 10 || base == 16
    ensures n >= base ==> 0 < q < n
    ensures n < base ==> q == 0
    ensures q * base + Remainder(n, base) == n
  {
    if base == 10 then n / 10 else n / 16
  }

  function Remainder(n: nat, base: nat): (r: nat)
    requires base == 10 || base == 16
    ensures r < base
  {
    if base == 10 then n % 10 else n % 16
  }

  predicate AllDigitsOf(s: string, base: nat) { forall i :: 0 <= i < |s| ==> DigitValue(s[i]) < base }

  /** Base-10 or base-16 numeral without leading zeros, as `std::to_string` and `%x` print it. */
  function Numeral(n: nat, base: nat): (s: string)
    requires base == 10 || base == 16
    ensures |s| >= 1 && AllDigitsOf(s, base)
    ensures s[0] == '0' ==> |s| == 1
    decreases n
  {
    if n < base then [Digit(n)]
    else Numeral(Quotient(n, base), base) + [Digit(Remainder(n, base))]
  }

  function Decimal(n: nat): string { Numeral(n, 10) }

  // ---- reading numbers -------------------------------------------------------------------------

  function Shift(acc: nat, base: nat, c: char): nat { acc * base + DigitValue(c) }

  /** The value of the longest prefix of digits of `base`, continuing from `acc`. */
  function Magnitude(s: string, base: nat, acc: nat): nat {
    if s == "" || DigitValue(s[0]) >= base then acc
    else Magnitude(s[1..], base, Shift(acc, base, s[0]))
  }

  function SkipSpace(s: string): string {
    if s != "" && IsSpace(s[0]) then SkipSpace(s[1..]) else s
  }

  function StripHexPrefix(s: string): string {
    if |s| >= 3 && s[0] == '0' && (s[1] == 'x' || s[1] == 'X') && DigitValue(s[2]) < 16 then s[2..] else s
  }

  /** The number at the front of a string, of any size: white space, a sign and digits of base 10 or 16. */
  function Number(s: string, base: nat): int {
    var t := SkipSpace(s);
    var negative := t != "" && t[0] == '-';
    var u := if t != "" && (t[0] == '-' || t[0] == '+') then t[1..] else t;
    var m: int := Magnitude(if base == 16 then StripHexPrefix(u) else u, base, 0);
    if negative then -m else m
  }

  /** `strtol(s, NULL, base)` for base 10 or 16 and a 64-bit `long`: it saturates at both ends. */
  function Strtol(s: string, base: nat): (v: int)
    ensures -TWO_63 <= v < TWO_63
    ensures v == Number(s, base) <==> -TWO_63 <= Number(s, base) < TWO_63
  {
    var n := Number(s, base);
    if n < -TWO_63 then -TWO_63 else if n >= TWO_63 then TWO_63 - 1 else n
  }

  /** The value of an `int` after keeping 32 bits. */
  function ToInt32(v: int): (r: int)
    ensures -TWO_31 <= r < TWO_31
    ensures -TWO_31 <= v < TWO_31 ==> r == v
  {
    (v + TWO_31) % TWO_32 - TWO_31
  }

  /** `atoi`: the low 32 bits of `strtol` in base 10. */
  function Atoi(s: string): int { ToInt32(Strtol(s, 10)) }

  // ---- printing and reading are inverse --------------------------------------------------------

  lemma {:induction false} MagnitudeSnoc(s: string, c: char, base: nat, acc: nat)
    requires AllDigitsOf(s + [c], base)
    ensures Magnitude(s + [c], base, acc) == Shift(Magnitude(s, base, acc), base, c)
  {
    hide Shift;
    assert DigitValue((s + [c])[|s|]) < base;
    if s == "" {
      assert (s + [c])[1..] == "";
    } else {
      assert DigitValue((s + [c])[0]) < base;
      assert (s + [c])[1..] == s[1..] + [c];
      MagnitudeSnoc(s[1..], c, base, Shift(acc, base, s[0]));
    }
  }

  /** Reading back a printed numeral gives the number. */
  lemma {:induction false} NumeralRoundTrip(n: nat, base: nat)
    requires base == 10 || base == 16
    ensures Magnitude(Numeral(n, base), base, 0) == n
    decreases n
  {
    if n < base {
      assert Magnitude([Digit(n)][1..], base, n) == n;
    } else {
      NumeralRoundTrip(Quotient(n, base), base);
      MagnitudeSnoc(Numeral(Quotient(n, base), base), Digit(Remainder(n, base)), base, 0);
    }
  }

  /** `atoi` gives the number at the front of a string exactly when an `int` holds it. */
  lemma AtoiExact(s: string)
    ensures Atoi(s) == Number(s, 10) <==> -TWO_31 <= Number(s, 10) < TWO_31
  {
    hide Number;
  }

  lemma NumberOfDecimal(n: nat)
    ensures Number(Decimal(n), 10) == n
  {
    NumeralRoundTrip(n, 10);
    var s := Decimal(n);
    assert IsDigit(s[0]);
    assert SkipSpace(s) == s;
  }

  /** `atoi` undoes `std::to_string` on a natural number if and only if an `int` holds it; otherwise the result is
      negative or too small. */
  lemma AtoiOfDecimal(n: nat)
    ensures Atoi(Decimal(n)) == n <==> n < TWO_31
    ensures Atoi(Decimal(n)) == ToInt32(if n < TWO_63 then n else TWO_63 - 1)
    ensures Atoi(Decimal(n)) <= n
  {
    NumberOfDecimal(n);
    AtoiExact(Decimal(n));
    hide Number, Numeral;
  }

  /** `strtol` in base 16 undoes the hexadecimal printing of every non-negative `long`. */
  lemma StrtolOfHex(n: nat)
    requires n < TWO_63
    ensures Strtol(Numeral(n, 16), 16) == n
  {
    NumeralRoundTrip(n, 16);
    var s := Numeral(n, 16);
    assert IsAlnum(s[0]);
    assert SkipSpace(s) == s;
  }

  lemma DecimalInjective(m: nat, n: nat)
    requires Decimal(m) == Decimal(n)
    ensures m == n
  {
    NumeralRoundTrip(m, 10);
    NumeralRoundTrip(n, 10);
  }

  lemma {:induction false} MagnitudeAtLeast(s: string, acc: nat)
    ensures acc <= Magnitude(s, 10, acc)
  {
    if s != "" && DigitValue(s[0]) < 10 {
      MagnitudeAtLeast(s[1..], Shift(acc, 10, s[0]));
    }
  }

  // ---- what is read, digit by digit --------------------------------------------------------------

  /** The digits and their letters, in both cases. */
  lemma HexDigits(v: nat)
    requires v < 16
    ensures Digit(v) == "0123456789abcdef"[v]
    ensures DigitValue("0123456789abcdef"[v]) == v == DigitValue("0123456789ABCDEF"[v])
  {
  }

  lemma SameDigit(x: char, y: char)
    requires SameLetter(x, y)
    ensures DigitValue(x) == DigitValue(y)
  {
  }

  /** The case of the letters in a numeral does not matter. */
  lemma {:induction false} SameNumeral(a: string, b: string, base: nat, acc: nat)
    requires SameLetters(a, b)
    ensures Magnitude(a, base, acc) == Magnitude(b, base, acc)
    ensures AllDigitsOf(a, base) <==> AllDigitsOf(b, base)
    decreases |a|
  {
    assert forall i :: 0 <= i < |a| ==> DigitValue(a[i]) == DigitValue(b[i]) by {
      forall i | 0 <= i < |a|
        ensures DigitValue(a[i]) == DigitValue(b[i])
      {
        SameDigit(a[i], b[i]);
      }
    }
    if a != "" {
      SameNumeral(a[1..], b[1..], base, Shift(acc, base, a[0]));
    }
  }

  /** The value of a numeral: each digit counts `base` times as much as the one after it. */
  function Positional(s: string, base: nat): nat
    decreases |s|
  {
    if s == "" then 0 else Positional(s[..|s| - 1], base) * base + DigitValue(s[|s| - 1])
  }

  lemma {:induction false} MagnitudeIsPositional(s: string, base: nat)
    requires AllDigitsOf(s, base)
    ensures Magnitude(s, base, 0) == Positional(s, base)
    decreases |s|
  {
    if s != "" {
      var front := s[..|s| - 1];
      assert front + [s[|s| - 1]] == s;
      MagnitudeIsPositional(front, base);
      MagnitudeSnoc(front, s[|s| - 1], base, 0);
    }
  }

  /** Where the digits end, nothing more is read. */
  lemma {:induction false} MagnitudeStops(s: string, tail: string, base: nat, acc: nat)
    requires AllDigitsOf(s, base) && (tail != "" ==> DigitValue(tail[0]) >= base)
    ensures Magnitude(s + tail, base, acc) == Magnitude(s, base, acc)
    decreases |s|
  {
    if s == "" {
      assert s + tail == tail;
    } else {
      assert DigitValue(s[0]) < base;
      assert (s + tail)[1..] == s[1..] + tail;
      MagnitudeStops(s[1..], tail, base, Shift(acc, base, s[0]));
    }
  }

  lemma {:induction false} SpacesSkipped(space: string, t: string)
    requires forall i :: 0 <= i < |space| ==> space[i] == ' ' || 9 <= space[i] as int <= 13
    requires t != "" ==> !IsSpace(t[0])
    ensures SkipSpace(space + t) == t
    decreases |space|
  {
    if space == "" {
      assert space + t == t;
    } else {
      assert (space + t)[1..] == space[1..] + t;
      SpacesSkipped(space[1..], t);
    }
  }

  /** What `strtol` makes of white space, a sign, digits and anything else after them. */
  lemma NumberRead(space: string, sign: string, s: string, tail: string, base: nat)
    requires base == 10 || base == 16
    requires forall i :: 0 <= i < |space| ==> space[i] == ' ' || 9 <= space[i] as int <= 13
    requires sign == "" || sign == "+" || sign == "-"
    requires s != "" && AllDigitsOf(s, base) && (tail != "" ==> DigitValue(tail[0]) >= base)
    requires base == 16 && s == "0" ==> tail == "" || (tail[0] != 'x' && tail[0] != 'X')
    ensures var v: int := Positional(s, base);
            Number(space + (sign + (s + tail)), base) == if sign == "-" then -v else v
  {
    var t := sign + (s + tail);
    SpacesSkipped(space, t) by {
      assert t[0] == if sign == "" then s[0] else sign[0];
      assert DigitValue(s[0]) < base;
    }
    NoPrefix(s, tail, base);
    MagnitudeStops(s, tail, base, 0);
    MagnitudeIsPositional(s, base);
    hide SkipSpace, StripHexPrefix, Magnitude, Positional;
    assert DigitValue(s[0]) < base;
    assert if sign == "" then t == s + tail else t[0] == sign[0] && t[1..] == s + tail;
  }

  lemma NoPrefix(s: string, tail: string, base: nat)
    requires (base == 10 || base == 16) && s != "" && AllDigitsOf(s, base)
    requires base == 16 && s == "0" ==> tail == "" || (tail[0] != 'x' && tail[0] != 'X')
    ensures base == 16 ==> StripHexPrefix(s + tail) == s + tail
  {
    assert DigitValue('x') == 33 == DigitValue('X');
    assert |s| >= 2 ==> DigitValue(s[1]) < base;
  }

  /** In base 16 a prefix is skipped. */
  lemma HexPrefixSkipped(x: char, s: string)
    requires (x == 'x' || x == 'X') && s != "" && AllDigitsOf(s, 16)
    ensures Number("0" + ([x] + s), 16) == Positional(s, 16)
  {
    var t := "0" + ([x] + s);
    assert SkipSpace(t) == t;
    PrefixStripped(x, s);
    MagnitudeIsPositional(s, 16);
    hide SkipSpace, StripHexPrefix, Magnitude, Positional;
    assert t[0] == '0';
  }

  lemma PrefixStripped(x: char, s: string)
    requires (x == 'x' || x == 'X') && s != "" && DigitValue(s[0]) < 16
    ensures StripHexPrefix("0" + ([x] + s)) == s
  {
    var t := "0" + ([x] + s);
    assert t[1] == x && t[2] == s[0];
    assert t[2..] == s;
  }

  /** `strtol` in base 16 reads a hexadecimal number in digits of either case. */
  lemma StrtolOfAnyHex(n: nat, s: string)
    requires n < TWO_63 && SameLetters(s, Numeral(n, 16))
    ensures Strtol(s, 16) == n
  {
    NumeralRoundTrip(n, 16);
    SameNumeral(s, Numeral(n, 16), 16, 0);
    MagnitudeIsPositional(s, 16);
    NumberRead("", "", s, "", 16);
    assert "" + ("" + (s + "")) == s;
  }

  /** The low 32 bits of a number that a `long` holds; of a longer one, of the largest or smallest `long`. */
  lemma AtoiBits(s: string)
    ensures -TWO_31 <= Atoi(s) < TWO_31
    ensures -TWO_63 <= Number(s, 10) < TWO_63 ==> (Number(s, 10) - Atoi(s)) % TWO_32 == 0
    ensures Number(s, 10) >= TWO_63 ==> Atoi(s) == -1
    ensures Number(s, 10) < -TWO_63 ==> Atoi(s) == 0
  {
    hide Number;
  }
}
