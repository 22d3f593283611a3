/** Currency conversion in integer minor units (providers/money.py).

    Amounts and rates are exact rationals, as real numbers.  Decimal's precision appears as an `Arithmetic`: how a
    product or quotient is rounded, and how many digits a quantized value may have before Decimal raises.  Exact
    arithmetic rounds nothing and has no limit. */
module Money {
  import opened Common

  // ---- Rounding half up ----

  /** Nearest integer, ties away from zero. */
  function RoundHalfUp(x: real): int {
    if x >= 0.0 then (x + 0.5).Floor else -(-x + 0.5).Floor
  }

  function Abs(x: real): real { if x < 0.0 then -x else x }

  function Times(a: real, b: real): real { a * b }

  /** Within half of x, and away from zero when exactly half from it. */
  ghost predicate IsNearest(n: int, x: real) {
    Abs(n as real - x) <= 0.5 && (Abs(n as real - x) == 0.5 ==> Abs(n as real) > Abs(x))
  }

  lemma RoundHalfUpIsNearest(x: real)
    ensures IsNearest(RoundHalfUp(x), x)
  {
  }

  lemma NearestIsUnique(x: real, n: int)
    requires IsNearest(n, x)
    ensures n == RoundHalfUp(x)
  {
  }

  lemma RoundHalfUpIsOddAndMonotone(x: real, y: real)
    ensures RoundHalfUp(-x) == -RoundHalfUp(x)
    ensures x <= y ==> RoundHalfUp(x) <= RoundHalfUp(y)
  {
  }

  lemma RoundHalfUpKeepsIntegers(n: int)
    ensures RoundHalfUp(n as real) == n
  {
  }

  // ---- Conversion ----

  datatype FxQuote = FxQuote(base: string, quote: string, rate: real)

  function UpperChar(c: char): char {
    if 'a' <= c <= 'z' then c - 'a' + 'A' else c
  }

  function Upper(s: string): string {
    seq(|s|, i requires 0 <= i < |s| => UpperChar(s[i]))
  }

  /** The upper-case form has no lower-case letter, differs only where there was one, and is its own upper case. */
  lemma UpperHasNoLowerCase(s: string)
    ensures |Upper(s)| == |s|
    ensures forall i :: 0 <= i < |s| ==> !('a' <= Upper(s)[i] <= 'z')
    ensures forall i :: 0 <= i < |s| ==> Upper(s)[i] == s[i] || ('a' <= s[i] <= 'z' && Upper(s)[i] - 'A' == s[i] - 'a')
    ensures Upper(Upper(s)) == Upper(s)
  {
  }

  datatype Arithmetic = Arithmetic(rounded: real -> real, digits: Option<nat>)

  datatype ConversionError = Unavailable | InvalidOperation

  /** The rate that takes one currency to another, if the quote expresses that very pair. */
  function RateFor(q: FxQuote, from: string, to: string, ar: Arithmetic): Option<real>
    requires q.rate > 0.0
  {
    if from == q.base && to == q.quote then Some(q.rate)
    else if from == q.quote && to == q.base then Some(ar.rounded(1.0 / q.rate))
    else None
  }

  /** Decimal digits of a coefficient. */
  function Digits(n: nat): nat {
    if n < 10 then 1 else 1 + Digits(n / 10)
  }

  function Magnitude(n: int): nat { if n < 0 then -n else n }

  /** Rounded to hundredths of a unit, given in hundredths; raises when they have too many digits. */
  function Quantize(p: real, digits: Option<nat>): Result<int, ConversionError> {
    var hundredths := RoundHalfUp(p * 100.0);
    if digits.Some? && Digits(Magnitude(hundredths)) > digits.value then Err(InvalidOperation) else Ok(hundredths)
  }

  /** Rounded to hundredths of a unit, then to an integral number of minor units. */
  function Settle(p: real, digits: Option<nat>): Result<int, ConversionError> {
    var converted := Quantize(p, digits);
    if converted.Err? then converted else Ok(RoundHalfUp((converted.value as real / 100.0) * 100.0))
  }

  /** The product before it is rounded, in units. */
  function Unrounded(minor: int, rate: real, ar: Arithmetic): real {
    ar.rounded(Times(ar.rounded(minor as real / 100.0), rate))
  }

  function ConvertAt(minor: int, rate: real, ar: Arithmetic): Result<int, ConversionError> {
    Settle(Unrounded(minor, rate, ar), ar.digits)
  }

  function Convert(minor: int, q: FxQuote, from: string, to: string, ar: Arithmetic): Result<int, ConversionError>
    requires q.rate > 0.0
  {
    if Upper(from) == Upper(to) then Ok(minor)
    else
      var rate := RateFor(q, Upper(from), Upper(to), ar);
      if rate.None? then Err(Unavailable) else ConvertAt(minor, rate.value, ar)
  }

  /** From one currency to another and back. */
  function RoundTrip(minor: int, q: FxQuote, from: string, to: string, ar: Arithmetic): Result<int, ConversionError>
    requires q.rate > 0.0
  {
    var there := Convert(minor, q, from, to, ar);
    if there.Err? then there else Convert(there.value, q, to, from, ar)
  }

  /** The rate the quote means, without Decimal's rounding. */
  function TrueRate(q: FxQuote, from: string, to: string): (r: real)
    requires q.rate > 0.0
    ensures r > 0.0
  {
    if Upper(from) == Upper(to) then 1.0
    else if Upper(from) == q.base && Upper(to) == q.quote then q.rate
    else 1.0 / q.rate
  }

  /** The quote is for these two currencies, in either direction. */
  predicate Expresses(q: FxQuote, from: string, to: string) {
    (Upper(from), Upper(to)) in {(q.base, q.quote), (q.quote, q.base)}
  }

  /** A conversion is available exactly for one currency, or for the pair of the quote in either direction. */
  lemma ConvertibleExactlyWhen(minor: int, q: FxQuote, from: string, to: string, ar: Arithmetic)
    requires q.rate > 0.0
    ensures Convert(minor, q, from, to, ar) != Err(Unavailable) <==> Upper(from) == Upper(to) || Expresses(q, from, to)
    ensures Upper(from) == Upper(to) ==> Convert(minor, q, from, to, ar) == Ok(minor)
  {
  }

  predicate Fits(n: int, digits: Option<nat>) {
    digits.Some? ==> Digits(Magnitude(n)) <= digits.value
  }

  /** The second rounding, to an integral value, never changes anything. */
  lemma SecondRoundingIsIdentity(p: real, digits: Option<nat>)
    ensures Settle(p, digits) == if Fits(RoundHalfUp(p * 100.0), digits) then Ok(RoundHalfUp(p * 100.0)) else Err(InvalidOperation)
  {
    RoundHalfUpKeepsIntegers(RoundHalfUp(p * 100.0));
  }

  // ---- Exact arithmetic ----

  function Exact(x: real): real { x }

  const EXACT := Arithmetic(Exact, None)

  lemma Cents(m: real, rate: real)
    ensures Times(m / 100.0, rate) * 100.0 == Times(m, rate)
  {
  }

  lemma TimesOne(a: real)
    ensures Times(a, 1.0) == a
  {
  }

  lemma ConvertAtExactly(minor: int, rate: real)
    ensures ConvertAt(minor, rate, EXACT) == Ok(RoundHalfUp(Times(minor as real, rate)))
  {
    hide Times;
    var p := Times(minor as real / 100.0, rate);
    assert ConvertAt(minor, rate, EXACT) == Settle(p, None);
    SecondRoundingIsIdentity(p, None);
    Cents(minor as real, rate);
  }

  /** In exact arithmetic a conversion is the product rounded half up: within half a minor unit, ties away from zero. */
  lemma ExactConversion(minor: int, q: FxQuote, from: string, to: string)
    requires q.rate > 0.0 && (Upper(from) == Upper(to) || Expresses(q, from, to))
    ensures Convert(minor, q, from, to, EXACT) == Ok(RoundHalfUp(Times(minor as real, TrueRate(q, from, to))))
    ensures IsNearest(Convert(minor, q, from, to, EXACT).value, Times(minor as real, TrueRate(q, from, to)))
  {
    hide Times;
    var r := TrueRate(q, from, to);
    RoundHalfUpIsNearest(Times(minor as real, r));
    TimesOne(minor as real);
    RoundHalfUpKeepsIntegers(minor);
    ConvertAtExactly(minor, r);
  }

  lemma TimesIsOddAndMonotone(a: real, b: real, r: real)
    requires r > 0.0
    ensures Times(-a, r) == -Times(a, r)
    ensures a <= b ==> Times(a, r) <= Times(b, r)
  {
  }

  /** Conversion is odd, and monotone in the amount. */
  lemma ExactConversionIsOddAndMonotone(a: int, b: int, q: FxQuote, from: string, to: string)
    requires q.rate > 0.0 && (Upper(from) == Upper(to) || Expresses(q, from, to))
    ensures Convert(a, q, from, to, EXACT).Ok? && Convert(b, q, from, to, EXACT).Ok?
    ensures Convert(-a, q, from, to, EXACT) == Ok(-Convert(a, q, from, to, EXACT).value)
    ensures a <= b ==> Convert(a, q, from, to, EXACT).value <= Convert(b, q, from, to, EXACT).value
  {
    hide Times;
    hide Convert;
    var r := TrueRate(q, from, to);
    ExactConversion(a, q, from, to);
    ExactConversion(-a, q, from, to);
    ExactConversion(b, q, from, to);
    TimesIsOddAndMonotone(a as real, b as real, r);
    assert (-a) as real == -(a as real);
    RoundHalfUpIsOddAndMonotone(Times(a as real, r), Times(b as real, r));
  }

  lemma DivideBound(d: real, r: real, b: real)
    requires r > 0.0 && d * r <= b
    ensures d <= b / r
  {
    assert (b / r) * r == b;
    assert (d - b / r) * r == d * r - b;
    NonPositiveFactor(d - b / r, r);
  }

  lemma NonPositiveFactor(t: real, r: real)
    requires r > 0.0 && t * r <= 0.0
    ensures t <= 0.0
  {
  }

  /** Dividing by the rate divides the error of a conversion at that rate. */
  lemma Undo(a: real, n: real, r: real, e: real)
    requires r > 0.0 && Abs(n - Times(a, r)) <= e
    ensures Abs(Times(n, 1.0 / r) - a) <= e / r
  {
    var d := n * (1.0 / r) - a;
    assert d * r == n - a * r;
    assert (-d) * r == a * r - n;
    DivideBound(d, r, e);
    DivideBound(-d, r, e);
  }

  lemma HalfOverRate(r: real)
    requires r > 0.0
    ensures r > 1.0 ==> 0.5 / r < 0.5
  {
  }

  lemma WithinHalf(a: int, y: real, h: real)
    requires Abs(y - a as real) <= h
    ensures Abs((RoundHalfUp(y) - a) as real) <= 0.5 + h
    ensures h < 0.5 || y == a as real ==> RoundHalfUp(y) == a
  {
  }

  function There(a: int, r: real): int { RoundHalfUp(Times(a as real, r)) }

  function ThereAndBack(a: int, r: real): int
    requires r > 0.0
  {
    There(There(a, r), 1.0 / r)
  }

  /** There and back at a rate and its inverse. */
  lemma RoundTripAt(a: int, r: real)
    requires r > 0.0
    ensures Abs((ThereAndBack(a, r) - a) as real) <= 0.5 + 0.5 / r
    ensures r >= 1.0 ==> ThereAndBack(a, r) == a
  {
    hide Times;
    var x := Times(a as real, r);
    var there := There(a, r);
    RoundHalfUpIsNearest(x);
    Undo(a as real, there as real, r, 0.5);
    HalfOverRate(r);
    TimesOne(a as real);
    TimesOne(there as real);
    RoundHalfUpKeepsIntegers(a);
    WithinHalf(a, Times(there as real, 1.0 / r), 0.5 / r);
  }

  lemma ThereIsMonotone(a: int, b: int, r: real)
    requires r > 0.0 && a <= b
    ensures There(a, r) <= There(b, r)
  {
    TimesIsOddAndMonotone(a as real, b as real, r);
  }

  /** If every amount came back, no two amounts would convert to one, so that n of them would need n results. */
  lemma {:induction false} NeverFallsBehind(n: nat, r: real)
    requires r > 0.0 && forall a :: ThereAndBack(a, r) == a
    ensures There(n, r) >= n
  {
    if n > 0 {
      NeverFallsBehind(n - 1, r);
      ThereIsMonotone(n - 1, n, r);
      assert ThereAndBack(n - 1, r) == n - 1 && ThereAndBack(n, r) == n;
    }
  }

  lemma FallsBehind(r: real) returns (n: nat)
    requires 0.0 < r < 1.0
    ensures There(n, r) < n
  {
    var d := 1.0 - r;
    n := (1.0 / d).Floor + 1;
    assert (1.0 / d) * d == 1.0;
    assert n as real > 1.0 / d;
    GreaterFactor(n as real, 1.0 / d, d);
    assert Times(n as real, r) == n as real - n as real * d;
  }

  lemma GreaterFactor(x: real, y: real, d: real)
    requires x > y && d > 0.0
    ensures x * d > y * d
  {
  }

  /** Every amount comes back exactly when the rate is at least 1. */
  lemma EveryAmountComesBackExactlyWhen(r: real)
    requires r > 0.0
    ensures (forall a :: ThereAndBack(a, r) == a) <==> r >= 1.0
  {
    if r >= 1.0 {
      forall a ensures ThereAndBack(a, r) == a { RoundTripAt(a, r); }
    } else if forall a :: ThereAndBack(a, r) == a {
      var n := FallsBehind(r);
      NeverFallsBehind(n, r);
    }
  }

  lemma InverseRate(q: FxQuote, from: string, to: string, ar: Arithmetic)
    requires q.rate > 0.0 && Upper(from) != Upper(to) && Expresses(q, from, to)
    ensures TrueRate(q, to, from) == 1.0 / TrueRate(q, from, to)
    ensures Expresses(q, to, from)
    ensures RateFor(q, Upper(from), Upper(to), ar).Some? && RateFor(q, Upper(to), Upper(from), ar).Some?
  {
  }

  lemma ExactRoundTripIs(a: int, q: FxQuote, from: string, to: string)
    requires q.rate > 0.0 && Upper(from) != Upper(to) && Expresses(q, from, to)
    ensures RoundTrip(a, q, from, to, EXACT) == Ok(ThereAndBack(a, TrueRate(q, from, to)))
  {
    hide Times;
    hide Convert;
    InverseRate(q, from, to, EXACT);
    ExactConversion(a, q, from, to);
    ExactConversion(There(a, TrueRate(q, from, to)), q, to, from);
  }

  /** There and back: the error is at most 1/2 + 1/(2 rate), and there is none when the first rate is at least 1. */
  lemma ExactRoundTrip(a: int, q: FxQuote, from: string, to: string)
    requires q.rate > 0.0 && Upper(from) != Upper(to) && Expresses(q, from, to)
    ensures var r := TrueRate(q, from, to);
            var back := RoundTrip(a, q, from, to, EXACT);
            back.Ok? && Abs((back.value - a) as real) <= 0.5 + 0.5 / r && (r >= 1.0 ==> back.value == a)
  {
    ExactRoundTripIs(a, q, from, to);
    RoundTripAt(a, TrueRate(q, from, to));
  }

  /** Every amount survives the round trip exactly when the first rate is at least 1: below it, some amount always
      comes back as another one. */
  lemma RoundTripIsExactExactlyWhen(q: FxQuote, from: string, to: string)
    requires q.rate > 0.0 && Upper(from) != Upper(to) && Expresses(q, from, to)
    ensures (forall a :: RoundTrip(a, q, from, to, EXACT) == Ok(a)) <==> TrueRate(q, from, to) >= 1.0
  {
    hide RoundTrip;
    hide ThereAndBack;
    var r := TrueRate(q, from, to);
    forall a ensures RoundTrip(a, q, from, to, EXACT) == Ok(ThereAndBack(a, r)) { ExactRoundTripIs(a, q, from, to); }
    EveryAmountComesBackExactlyWhen(r);
    if forall a :: RoundTrip(a, q, from, to, EXACT) == Ok(a) {
      forall a ensures ThereAndBack(a, r) == a {
        assert RoundTrip(a, q, from, to, EXACT) == Ok(a);
      }
    }
  }

  /** The smallest miss: one minor unit at one half comes back as two. */
  lemma RoundTripBelowOneCanMiss()
    ensures RoundTrip(1, FxQuote("EUR", "USD", 0.5), "EUR", "USD", EXACT) == Ok(2)
  {
    var q := FxQuote("EUR", "USD", 0.5);
    assert Upper("EUR") == "EUR" && Upper("USD") == "USD" && "EUR"[0] != "USD"[0];
    ConvertAtExactly(1, 0.5);
    ConvertAtExactly(1, 2.0);
    assert Times(1.0, 0.5) == 0.5 && Times(1.0, 2.0) == 2.0;
  }

  // ---- Decimal arithmetic ----

  /** 28 significant digits: a relative error of at most 5e-28 per operation. */
  const ULP := 0.0000000000000000000000000005
  /** Three of them, compounded. */
  const ULP3 := 0.0000000000000000000000000015000000000000000000000001

  ghost predicate Near(y: real, x: real, e: real) {
    Abs(y - x) <= Times(e, Abs(x))
  }

  ghost predicate Precise(ctx: real -> real) {
    forall x: real :: Near(ctx(x), x, ULP)
  }

  const PRECISION := 28

  /** The default context of Decimal. */
  ghost predicate IsDecimal(ar: Arithmetic) {
    Precise(ar.rounded) && ar.digits == Some(PRECISION)
  }

  function PowerOfTen(k: nat): nat {
    if k == 0 then 1 else 10 * PowerOfTen(k - 1)
  }

  lemma {:induction false} DigitsExactlyWhen(n: nat, k: nat)
    requires k > 0
    ensures Digits(n) <= k <==> n < PowerOfTen(k)
  {
    assert PowerOfTen(k) == 10 * PowerOfTen(k - 1);
    if n >= 10 && k > 1 {
      DigitsExactlyWhen(n / 10, k - 1);
    } else if k > 1 {
      PowerGrows(k - 1);
    }
  }

  lemma {:induction false} PowerGrows(k: nat)
    ensures PowerOfTen(k) >= 1
  {
    if k > 0 { PowerGrows(k - 1); }
  }

  lemma {:induction false} PowerAdds(j: nat, k: nat)
    ensures PowerOfTen(j + k) == PowerOfTen(j) * PowerOfTen(k)
  {
    if j > 0 { PowerAdds(j - 1, k); }
  }

  const OVERFLOW := 10_000_000_000_000_000_000_000_000_000.0

  lemma LimitIs(k: nat)
    requires k == 7
    ensures PowerOfTen(k) == 10_000_000
    ensures PowerOfTen(4 * k) as real == OVERFLOW
  {
    assert PowerOfTen(k - 6) == 10 && PowerOfTen(k - 5) == 100 && PowerOfTen(k - 4) == 1_000;
    assert PowerOfTen(k - 3) == 10_000 && PowerOfTen(k - 2) == 100_000 && PowerOfTen(k - 1) == 1_000_000;
    PowerAdds(k, k);
    PowerAdds(2 * k, 2 * k);
  }

  /** A value of minor units fits exactly when it is below ten to the 28th. */
  lemma FitsExactlyWhen(n: int)
    ensures Fits(n, Some(PRECISION)) <==> Abs(n as real) < OVERFLOW
  {
    hide PowerOfTen;
    hide Digits;
    DigitsExactlyWhen(Magnitude(n), PRECISION);
    LimitIs(7);
  }

  lemma NearScales(y: real, x: real, r: real)
    requires Near(y, x, ULP)
    ensures Near(Times(y, r), Times(x, r), ULP)
  {
    hide Times;
    var u, v, c := Abs(y - x), Abs(x), Abs(r);
    assert Abs(Times(y, r) - Times(x, r)) == Times(u, c) by { TimesOfDifference(y, x, r); AbsTimes(y - x, r); }
    assert Abs(Times(x, r)) == Times(v, c) by { AbsTimes(x, r); }
    assert Times(u, c) <= Times(Times(ULP, v), c) by { TimesIsMonotone(u, Times(ULP, v), c); }
    TimesIsAssociative(ULP, v, c);
  }

  lemma TimesOfDifference(y: real, x: real, r: real)
    ensures Times(y, r) - Times(x, r) == Times(y - x, r)
  {
  }

  lemma TimesIsAssociative(a: real, b: real, c: real)
    ensures Times(Times(a, b), c) == Times(a, Times(b, c))
  {
  }

  lemma TimesIsMonotone(a: real, b: real, c: real)
    requires a <= b && c >= 0.0
    ensures Times(a, c) <= Times(b, c)
  {
  }

  lemma AbsTimes(a: real, b: real)
    ensures Abs(Times(a, b)) == Times(Abs(a), Abs(b))
  {
  }

  lemma ThreeErrors(x: real, x1: real, x2: real, x3: real)
    requires Near(x1, x, ULP) && Near(x2, x1, ULP) && Near(x3, x2, ULP)
    ensures Near(x3, x, ULP3)
  {
  }

  /** The product before rounding, in minor units, at a rate that is itself one operation away from the true one. */
  lemma UnroundedIsNear(minor: int, r: real, rate: real, ar: Arithmetic)
    requires Precise(ar.rounded) && Near(rate, r, ULP)
    ensures Near(Unrounded(minor, rate, ar) * 100.0, Times(minor as real, r), ULP3)
  {
    hide Times;
    var ctx := ar.rounded;
    var m := minor as real / 100.0;
    var amount := ctx(m);
    var x0, x1, x2 := Times(m, r), Times(m, rate), Times(amount, rate);
    assert Near(x1, x0, ULP) by { NearScales(rate, r, m); TimesCommute(rate, m); TimesCommute(r, m); }
    assert Near(x2, x1, ULP) by { assert Near(amount, m, ULP); NearScales(amount, m, rate); }
    assert Near(ctx(x2), x2, ULP);
    ThreeErrors(x0, x1, x2, ctx(x2));
    Cents(minor as real, r);
    NearTimes100(ctx(x2), x0);
  }

  lemma TimesCommute(a: real, b: real)
    ensures Times(a, b) == Times(b, a)
  {
  }

  lemma NearTimes100(y: real, x: real)
    requires Near(y, x, ULP3)
    ensures Near(y * 100.0, x * 100.0, ULP3)
  {
  }

  /** What a Decimal conversion computes: some number near the exact product, rounded, or an error when the rounded
      minor units have more than 28 digits. */
  lemma DecimalConversionRounds(minor: int, q: FxQuote, from: string, to: string, ar: Arithmetic) returns (u: real)
    requires q.rate > 0.0 && IsDecimal(ar) && Upper(from) != Upper(to) && Expresses(q, from, to)
    ensures RateFor(q, Upper(from), Upper(to), ar).Some?
    ensures u == Unrounded(minor, RateFor(q, Upper(from), Upper(to), ar).value, ar) * 100.0
    ensures Near(u, Times(minor as real, TrueRate(q, from, to)), ULP3)
    ensures Digits(Magnitude(RoundHalfUp(u))) <= PRECISION <==> Abs(RoundHalfUp(u) as real) < OVERFLOW
    ensures Convert(minor, q, from, to, ar) ==
      if Digits(Magnitude(RoundHalfUp(u))) <= PRECISION then Ok(RoundHalfUp(u)) else Err(InvalidOperation)
  {
    hide Times;
    var r := TrueRate(q, from, to);
    var rate := RateFor(q, Upper(from), Upper(to), ar).value;
    assert Near(rate, r, ULP) by { SmallNonNegative(r); }
    UnroundedIsNear(minor, r, rate, ar);
    u := Unrounded(minor, rate, ar) * 100.0;
    SecondRoundingIsIdentity(Unrounded(minor, rate, ar), ar.digits);
    FitsExactlyWhen(RoundHalfUp(u));
  }

  /** Decimal conversion: within half a minor unit of the exact product, plus three roundings of 28 digits.  It raises
      only when the product reaches ten to the 28th minor units, up to those errors, and then it does raise. */
  lemma DecimalConversion(minor: int, q: FxQuote, from: string, to: string, ar: Arithmetic)
    requires q.rate > 0.0 && IsDecimal(ar) && Upper(from) != Upper(to) && Expresses(q, from, to)
    ensures var x := Times(minor as real, TrueRate(q, from, to));
      var error := 0.5 + Times(ULP3, Abs(x));
      match Convert(minor, q, from, to, ar)
      case Ok(n) => Abs(n as real - x) <= error && Abs(x) < OVERFLOW + error
      case Err(e) => e == InvalidOperation && Abs(x) >= OVERFLOW - error
  {
    hide Convert;
    hide Digits;
    hide Times;
    var u := DecimalConversionRounds(minor, q, from, to, ar);
    RoundHalfUpIsNearest(u);
  }

  lemma SmallNonNegative(x: real)
    ensures Times(ULP, Abs(x)) >= 0.0 && Times(ULP3, Abs(x)) >= 0.0
  {
  }

  /** How far from half a minor unit a round trip can be: the first rounding divided by the rate, and the error of
      28 digits. */
  function Slack(a: int, r: real): real
    requires r > 0.0
  {
    (0.5 / r) * (1.0 + ULP3) + 3.0 * ULP3 * Abs(a as real)
  }

  lemma SlackIsEnough(a: real, x: real, y: real, z: real, e: real, r: real)
    requires r > 0.0 && x == Times(a, r) && e == 0.5 + Times(ULP3, Abs(x))
    requires Abs(y - a) <= e / r && Near(z, y, ULP3)
    ensures Abs(z - a) <= (0.5 / r) * (1.0 + ULP3) + 3.0 * ULP3 * Abs(a)
  {
    hide Times;
    ErrorOverRate(a, x, e, r);
    var half := 0.5 / r;
    assert Abs(y - a) <= half + ULP3 * Abs(a);
    assert Abs(y) <= Abs(a) + half + ULP3 * Abs(a);
    NearLinear(z, y);
    TinySquare(Abs(a));
  }

  lemma NearLinear(z: real, y: real)
    requires Near(z, y, ULP3)
    ensures Abs(z - y) <= ULP3 * Abs(y)
  {
  }

  lemma TinySquare(a: real)
    requires a >= 0.0
    ensures ULP3 * (ULP3 * a) <= ULP3 * a
  {
  }

  lemma ErrorOverRate(a: real, x: real, e: real, r: real)
    requires r > 0.0 && x == Times(a, r) && e == 0.5 + Times(ULP3, Abs(x))
    ensures e / r == 0.5 / r + ULP3 * Abs(a)
  {
    AbsTimes(a, r);
    assert Times(ULP3, Abs(x)) == (ULP3 * Abs(a)) * r;
    var t := ULP3 * Abs(a);
    assert (0.5 + t * r) / r == 0.5 / r + (t * r) / r;
    assert (t * r) / r == t;
  }

  /** The round trip in Decimal arithmetic, at every rate and for every amount the first conversion lets through: the
      error is at most half a minor unit and the slack, there is none when the slack is below one half, and the way
      back raises only within that distance of ten to the 28th. */
  lemma DecimalRoundTripAt(a: int, q: FxQuote, from: string, to: string, ar: Arithmetic)
    requires q.rate > 0.0 && IsDecimal(ar) && Upper(from) != Upper(to) && Expresses(q, from, to)
    requires Convert(a, q, from, to, ar).Ok?
    ensures var slack := Slack(a, TrueRate(q, from, to));
      var back := RoundTrip(a, q, from, to, ar);
      && (back.Ok? ==> Abs((back.value - a) as real) <= 0.5 + slack)
      && (slack < 0.5 ==> back == Ok(a))
      && (back.Err? ==> back == Err(InvalidOperation) && Abs(a as real) + 0.5 + slack >= OVERFLOW)
  {
    hide Convert;
    hide Digits;
    hide Times;
    var r := TrueRate(q, from, to);
    var there := Convert(a, q, from, to, ar).value;
    var x := Times(a as real, r);
    DecimalConversion(a, q, from, to, ar);
    InverseRate(q, from, to, ar);
    var error := 0.5 + Times(ULP3, Abs(x));
    Undo(a as real, there as real, r, error);
    var u := DecimalConversionRounds(there, q, to, from, ar);
    SlackIsEnough(a as real, x, Times(there as real, 1.0 / r), u, error, r);
    WithinHalf(a, u, Slack(a, r));
    SmallAmount(a, r);
  }

  /** A slack below one half leaves the amount far from the limit. */
  lemma SmallAmount(a: int, r: real)
    requires r > 0.0
    ensures Slack(a, r) >= 0.0
    ensures Slack(a, r) < 0.5 ==> Abs(a as real) < OVERFLOW
  {
    assert 0.5 / r > 0.0;
    assert (0.5 / r) * (1.0 + ULP3) >= 0.0;
  }

  /** Amounts up to 10^24 minor units survive there and back at every rate from 1.01 up, exactly when the first
      conversion does not raise. */
  lemma DecimalRoundTrip(a: int, q: FxQuote, from: string, to: string, ar: Arithmetic)
    requires q.rate > 0.0 && IsDecimal(ar) && Upper(from) != Upper(to) && Expresses(q, from, to)
    requires TrueRate(q, from, to) >= 1.01 && Abs(a as real) <= 1_000_000_000_000_000_000_000_000.0
    ensures RoundTrip(a, q, from, to, ar) == Ok(a) <==> Convert(a, q, from, to, ar).Ok?
  {
    hide Convert;
    if Convert(a, q, from, to, ar).Ok? {
      DecimalRoundTripAt(a, q, from, to, ar);
      SlackAboveOne(a, TrueRate(q, from, to));
    }
  }

  lemma SlackAboveOne(a: int, r: real)
    requires r >= 1.01 && Abs(a as real) <= 1_000_000_000_000_000_000_000_000.0
    ensures Slack(a, r) < 0.5
  {
    var half := 0.5 / r;
    assert half * r == 0.5;
    assert (half - 0.4951) * r <= 0.0;
    NonPositiveFactor(half - 0.4951, r);
  }
}
