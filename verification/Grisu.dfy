// Digit generation in 64-bit fixed point. It may give up, but what it does
// deliver is correctly rounded for every number within the given error.
module Grisu {
  import opened Powers
  import opened Digits
  import opened Words

  // ----- Rounding direction -------------------------------------------------

  datatype RoundDirection = Unknown | Up | Down

  function GetRoundDirection(divisor: uint64, remainder: uint64, error: uint64): (r: RoundDirection)
    requires remainder < divisor && error < divisor && error < divisor - error
    ensures r == Down <==> 2 * (remainder + error) <= divisor
    ensures r == Up <==> 2 * (remainder + error) > divisor && 2 * (remainder - error) >= divisor
  {
    if remainder <= divisor - remainder && error * 2 <= divisor - remainder * 2 then Down
    else if remainder >= error && remainder - error >= divisor - (remainder - error) then Up
    else Unknown
  }

  // Everything within error of value rounds to digits units.
  predicate Safe(digits: int, unit: int, value: int, error: int)
  {
    && 2 * (value + error) <= 2 * (digits * unit) + unit
    && 2 * (value - error) >= 2 * (digits * unit) - unit
  }

  lemma SafeForReals(digits: int, unit: int, value: int, error: int, x: real)
    requires Safe(digits, unit, value, error)
    requires value as real - error as real <= x <= value as real + error as real
    ensures -(unit as real) / 2.0 <= x - (digits * unit) as real <= unit as real / 2.0
  {
    RealBounds(digits * unit, unit, value, error, x);
  }

  lemma RealBounds(p: int, unit: int, value: int, error: int, x: real)
    requires 2 * (value + error) <= 2 * p + unit && 2 * (value - error) >= 2 * p - unit
    requires value as real - error as real <= x <= value as real + error as real
    ensures -(unit as real) / 2.0 <= x - p as real <= unit as real / 2.0
  {
    assert (2 * (value + error)) as real <= (2 * p + unit) as real;
    assert (2 * (value - error)) as real >= (2 * p - unit) as real;
  }

  // A quotient that is rounded safely with respect to its remainder.
  lemma RoundedIsSafe(number: int, divisor: int, value: int, remainder: int, error: int, up: bool)
    requires value == number * divisor + remainder && Rounded(divisor, remainder, error, up)
    requires error >= 0
    ensures Safe(number + if up then 1 else 0, divisor, value, error)
  {
    assert (number + 1) * divisor == number * divisor + divisor;
  }

  // ----- Handling one digit -------------------------------------------------

  datatype Result = More | Done | Error

  class GenDigitsHandler {
    var buf: seq<char>
    var precision: int
    var exp10: int
    const fixed: bool

    constructor (precision: int, exp10: int, fixed: bool)
      ensures buf == [] && this.precision == precision && this.exp10 == exp10 && this.fixed == fixed
    {
      buf, this.precision, this.exp10, this.fixed := [], precision, exp10, fixed;
    }

    // Adds a digit; the last one is rounded if the error allows it. A carry out
    // of the first digit moves the exponent or, in fixed format, adds a digit.
    method OnDigit(digit: nat, divisor: uint64, remainder: uint64, error: uint64, integral: bool)
        returns (result: Result, ghost up: bool)
      requires AllDigits(buf) && digit <= 9
      requires remainder < divisor
      requires integral ==> error == 1 && divisor > 2
      modifies this`buf, this`exp10
      ensures result != Done ==> buf == old(buf) + [ToDigit(digit)] && exp10 == old(exp10)
      ensures result == More ==> |buf| < precision && (!integral ==> error < remainder)
      ensures result == Done ==>
        && Delivered(old(buf), old(exp10), buf, exp10, precision, fixed, 10 * DigitsVal(old(buf)) + digit + (if up then 1 else 0))
        && Rounded(divisor, remainder, error, up)
        && (|buf| == |old(buf)| + 2 ==> fixed)
      ensures result == Done ==> |old(buf)| + 1 >= precision && (integral || (error < remainder && 2 * error < divisor))
      ensures result == Error ==>
        || (!integral && error >= remainder)
        || (|buf| >= precision
            && ((!integral && 2 * error >= divisor)
                || (2 * (remainder + error) > divisor && 2 * (remainder - error) < divisor)))
    {
      hide DigitsVal, Pow;
      up := false;
      ghost var before := buf;
      DigitsPush(buf, ToDigit(digit));
      buf := buf + [ToDigit(digit)];
      if !integral && error >= remainder { return Error, up; }
      if |buf| < precision { return More, up; }
      if !integral {
        if error >= divisor || error >= divisor - error { return Error, up; }
      }
      var dir := GetRoundDirection(divisor, remainder, error);
      if dir != Up {
        DigitsNonNegative(buf);
        result := if dir == Down then Done else Error;
        return;
      }
      up := true;
      var overflow;
      assert buf[..|buf| - 1] == before;
      buf, overflow := AppendRounded(buf[..|buf| - 1], digit + 1);
      if overflow {
        if fixed {
          DigitsPush(buf, '0');
          buf := buf + ['0'];
        } else {
          exp10 := exp10 + 1;
        }
      }
      return Done, up;
    }
  }

  // The digits without or with one more unit are safe for the remainder.
  predicate Rounded(divisor: int, remainder: int, error: int, up: bool)
  {
    && 0 <= remainder < divisor && 2 * error < divisor
    && if up then 2 * (remainder - error) >= divisor else 2 * (remainder + error) <= divisor
  }

  // The handler holds the digits of number, which may have one more digit than
  // expected: then the last one is a zero, or the exponent stands for it.
  predicate Delivered(before: seq<char>, exp0: int, buf: seq<char>, exp: int,
                      precision: int, fixed: bool, number: int)
  {
    && AllDigits(buf) && precision <= |before| + 1 <= |buf| <= |before| + 2
    && (exp == exp0 || (exp == exp0 + 1 && !fixed))
    && (|buf| == |before| + 2 ==> fixed)
    && number == DigitsVal(buf) * (if exp == exp0 then 1 else 10)
  }

  // ----- Generating all digits ----------------------------------------------

  function CountDigits(n: nat): (k: nat)
    ensures k > 0 && n < Pow(10, k) && (n > 0 ==> Pow(10, k - 1) <= n)
  {
    if n < 10 then assert Pow(10, 1) == 10 && Pow(10, 0) == 1; 1 else CountDigits(n / 10) + 1
  }

  lemma {:induction false} ShortNumber(n: nat)
    requires n < 0x1_0000_0000
    ensures CountDigits(n) <= 10
  {
    assert Pow(10, 10) == 10000000000;
    if 10 < CountDigits(n) { PowMonotone(10, 10, CountDigits(n) - 1); }
  }

  function Neg(x: int): nat
  {
    if x < 0 then -x else 0
  }

  // The unit of a digit at decimal position exp, in units of 2^e, scaled up so
  // that it is an integer.
  function Unit(e: int, exp: int): (r: nat)
    requires e < 0
  {
    if exp >= 0 then MulPositive(Pow(10, exp), Pow(2, -e)); Pow(10, exp) * Pow(2, -e) else Pow(2, -e)
  }

  // The digits, with a carried exponent written out, are within half a unit of
  // every number that differs from f * 2^e by at most error * 2^e.
  predicate Correct(buf: seq<char>, carried: bool, f: nat, e: int, error: nat, exp: int)
    requires e < 0
  {
    && AllDigits(buf)
    && Safe(DigitsVal(buf) * (if carried then 10 else 1), Unit(e, exp), f * Pow(10, Neg(exp)), error * Pow(10, Neg(exp)))
  }

  function AtLeastOne(precision: int): nat
  {
    if precision > 1 then precision else 1
  }

  // Digit generation gives up with len digits: they are those of the number, cut
  // off at exp, and either the error has reached what is left of the fraction, or
  // they are as many as wanted, but neither they nor one unit more are safe.
  predicate Blocked(digits: int, len: nat, f: nat, e: int, exp: int, precision: int)
    requires e < 0
  {
    var unit, value, error := Unit(e, exp), f * Pow(10, Neg(exp)), Pow(10, Neg(exp));
    && 0 <= value - digits * unit < unit
    && (|| (exp < 0 && error >= value - digits * unit)
        || (len >= precision
            && ((exp < 0 && 2 * error >= unit) || (!Safe(digits, unit, value, error) && !Safe(digits + 1, unit, value, error)))))
  }

  lemma BlockedHere(digits: int, len: nat, f: nat, e: int, exp: int, precision: int, remainder: int)
    requires e < 0 && f * Pow(10, Neg(exp)) == digits * Unit(e, exp) + remainder && 0 <= remainder < Unit(e, exp)
    requires var unit, error := Unit(e, exp), Pow(10, Neg(exp));
      || (exp < 0 && error >= remainder)
      || (len >= precision
          && ((exp < 0 && 2 * error >= unit) || (2 * (remainder + error) > unit && 2 * (remainder - error) < unit)))
    ensures Blocked(digits, len, f, e, exp, precision)
  {
    hide Unit, Pow;
    assert (digits + 1) * Unit(e, exp) == digits * Unit(e, exp) + Unit(e, exp);
  }

  // How many digits are delivered: those wanted, and in fixed format one more if
  // a carry comes out of the first.
  predicate Complete(buf: seq<char>, count: nat, exp: int, precision: int, fixed: bool)
  {
    count - exp == AtLeastOne(precision) && (|buf| == count - exp || (fixed && |buf| == count - exp + 1))
  }

  lemma PowersOfTwo()
    ensures Pow(2, 32) == 0x1_0000_0000 && Pow(2, 60) == 0x1000_0000_0000_0000
  {
    assert Pow(2, 10) == 1024;
    PowAdd(2, 10, 10);
    PowAdd(2, 20, 10);
    PowAdd(2, 30, 30);
    PowAdd(2, 30, 2);
    assert Pow(2, 2) == 4;
  }

  lemma One(e: int)
    requires -60 <= e <= -32
    ensures 0x1_0000_0000 <= Pow(2, -e) <= 0x1000_0000_0000_0000
  {
    hide Pow;
    PowMonotone(2, 32, -e);
    PowMonotone(2, -e, 60);
    PowersOfTwo();
  }

  // After the digits so far, digits * 10^exp + integral is the integral part.
  predicate IntegralState(f: nat, one: nat, digits: int, exp: nat, integral: nat, fractional: nat)
  {
    && integral < Pow(10, exp) && fractional < one
    && f == digits * (Pow(10, exp) * one) + integral * one + fractional
  }

  // One digit off the integral part.
  method DivmodIntegral(integral: uint32, divisor: nat) returns (digit: nat, rest: uint32)
    requires 0 < divisor
    ensures integral == digit * divisor + rest && rest < divisor
  {
    DivModFact(integral, divisor);
    if integral / divisor < 0 { MulLe(integral / divisor, -1, divisor); }
    MulPositive(integral / divisor, divisor);
    digit, rest := integral / divisor, integral % divisor;
  }

  lemma IntegralStep(f: nat, one: nat, digits: int, exp: nat, integral: nat, fractional: nat, digit: nat, rest: nat)
    requires 0 < exp && IntegralState(f, one, digits, exp, integral, fractional)
    requires integral == digit * Pow(10, exp - 1) + rest && rest < Pow(10, exp - 1)
    ensures digit <= 9 && IntegralState(f, one, 10 * digits + digit, exp - 1, rest, fractional)
    ensures f == (10 * digits + digit) * (Pow(10, exp - 1) * one) + (rest * one + fractional)
    ensures 0 <= rest * one + fractional < Pow(10, exp - 1) * one
  {
    hide Pow;
    var p := Pow(10, exp - 1);
    TenMore(1, exp - 1);
    if digit >= 10 { MulLe(10, digit, p); }
    DigitSplit(digits, digit, p, rest, one);
    MulLe(rest + 1, p, one);
    MulPositive(rest, one);
    assert (rest + 1) * one == rest * one + one;
  }

  lemma DigitSplit(digits: int, d: int, p: int, r: int, one: int)
    ensures digits * ((10 * p) * one) + (d * p + r) * one == (10 * digits + d) * (p * one) + r * one
  {
    var w := p * one;
    assert (d * p + r) * one == d * w + r * one by { MulAssoc(d, p, one); assert (d * p + r) * one == (d * p) * one + r * one; }
    MulAssoc(10, p, one);
    assert digits * (10 * w) == (10 * digits) * w;
    assert (10 * digits + d) * w == (10 * digits) * w + d * w;
  }

  // A digit position below the top of the integral part stays within 64 bits.
  lemma DivisorFits(f: nat, one: nat, count: nat, exp: nat)
    requires 0 < one && 0 < f / one && count == CountDigits(f / one) && exp < count
    ensures one <= Pow(10, exp) * one <= f
  {
    PowMonotone(10, exp, count - 1);
    DivModFact(f, one);
    MulLe(Pow(10, exp), f / one, one);
    MulLe(1, Pow(10, exp), one);
  }

  // What a finished digit means at an integral or fractional position.
  lemma DeliveredIsCorrect(before: seq<char>, exp0: int, buf: seq<char>, exp10: int, precision: int, fixed: bool,
                           number: int, up: bool, f: nat, e: int, error: nat, exp: int, remainder: int)
    requires e < 0 && Delivered(before, exp0, buf, exp10, precision, fixed, number + if up then 1 else 0)
    requires Rounded(Unit(e, exp), remainder, error * Pow(10, Neg(exp)), up)
    requires f * Pow(10, Neg(exp)) == number * Unit(e, exp) + remainder
    ensures Correct(buf, exp10 != exp0, f, e, error, exp)
  {
    hide DigitsVal, Pow, Unit, Rounded, Safe;
    RoundedIsSafe(number, Unit(e, exp), f * Pow(10, Neg(exp)), remainder, error * Pow(10, Neg(exp)), up);
  }

  // One digit of the integral part; exp digits remain after it.
  method IntegralDigit(f: uint64, e: int, count: nat, exp: nat, digit: nat, integral: nat, fractional: uint64,
                       handler: GenDigitsHandler) returns (result: Result)
    requires -60 <= e <= -32 && 0 < f / Pow(2, -e) && count == CountDigits(f / Pow(2, -e)) && exp < count
    requires AllDigits(handler.buf) && digit <= 9
    requires integral * Pow(2, -e) + fractional < Pow(10, exp) * Pow(2, -e)
    requires f == (10 * DigitsVal(handler.buf) + digit) * (Pow(10, exp) * Pow(2, -e)) + (integral * Pow(2, -e) + fractional)
    modifies handler`buf, handler`exp10
    ensures result != Done ==> handler.buf == old(handler.buf) + [ToDigit(digit)] && handler.exp10 == old(handler.exp10)
    ensures result == More ==> |handler.buf| < handler.precision
    ensures result == Done ==> Correct(handler.buf, handler.exp10 != old(handler.exp10), f, e, 1, exp)
    ensures result == Done ==> handler.fixed ==> handler.exp10 == old(handler.exp10)
    ensures result == Done ==> 0 < |handler.buf| && handler.precision <= |handler.buf| <= |old(handler.buf)| + 2
    ensures result == Done ==> |old(handler.buf)| + 1 >= handler.precision
    ensures result == Done ==> |handler.buf| == |old(handler.buf)| + 1 || (handler.fixed && |handler.buf| == |old(handler.buf)| + 2)
    ensures result == Error ==> Blocked(DigitsVal(handler.buf), |handler.buf|, f, e, exp, handler.precision)
  {
    hide Pow, Delivered, Rounded, Correct, DigitsVal, Blocked;
    One(e);
    DivisorFits(f, Pow(2, -e), count, exp);
    MulPositive(integral, Pow(2, -e));
    var remainder: uint64 := integral * Pow(2, -e) + fractional;
    var divisor: uint64 := Pow(10, exp) * Pow(2, -e);
    ghost var before, digits := handler.buf, DigitsVal(handler.buf);
    ghost var up;
    result, up := handler.OnDigit(digit, divisor, remainder, 1, true);
    if result == Done {
      FinishIntegral(before, old(handler.exp10), handler.buf, handler.exp10, handler.precision, handler.fixed,
                     10 * digits + digit, up, f, e, exp, remainder);
      DeliveredLength(before, old(handler.exp10), handler.buf, handler.exp10, handler.precision, handler.fixed,
                      10 * digits + digit + if up then 1 else 0);
    } else if result == Error {
      DigitsPush(before, ToDigit(digit));
      IntegralBlocked(10 * digits + digit, |handler.buf|, f, e, exp, handler.precision, remainder);
    }
  }

  lemma IntegralBlocked(digits: int, len: nat, f: nat, e: int, exp: nat, precision: int, remainder: int)
    requires e < 0 && f == digits * (Pow(10, exp) * Pow(2, -e)) + remainder && 0 <= remainder < Pow(10, exp) * Pow(2, -e)
    requires len >= precision
    requires 2 * (remainder + 1) > Pow(10, exp) * Pow(2, -e) && 2 * (remainder - 1) < Pow(10, exp) * Pow(2, -e)
    ensures Blocked(digits, len, f, e, exp, precision)
  {
    hide Blocked;
    assert Pow(10, 0) == 1;
    hide Pow;
    BlockedHere(digits, len, f, e, exp, precision, remainder);
  }

  lemma DeliveredLength(before: seq<char>, exp0: int, buf: seq<char>, exp10: int, precision: int, fixed: bool, number: int)
    requires Delivered(before, exp0, buf, exp10, precision, fixed, number)
    ensures |before| + 1 >= precision && (|buf| == |before| + 1 || (fixed && |buf| == |before| + 2))
  {
  }

  // The integral part fits 32 bits and has at most ten digits.
  lemma IntegralIsShort(f: uint64, e: int)
    requires -60 <= e <= -32
    ensures 0 <= f / Pow(2, -e) < 0x1_0000_0000 && CountDigits(f / Pow(2, -e)) <= 10
  {
    hide Pow, CountDigits;
    One(e);
    var one := Pow(2, -e);
    DivModFact(f, one);
    if f / one >= 0x1_0000_0000 { MulLe(0x1_0000_0000, f / one, one); }
    if f / one < 0 { MulLe(f / one, -1, one); }
    ShortNumber(f / one);
  }

  // Digits of the integral part.
  method IntegralDigits(f: uint64, e: int, count: nat, handler: GenDigitsHandler)
      returns (result: Result, exp: int, fractional: uint64)
    requires -60 <= e <= -32 && 0 < f / Pow(2, -e) && count == CountDigits(f / Pow(2, -e))
    requires handler.buf == []
    modifies handler`buf, handler`exp10
    ensures 0 <= exp < count <= 10 && f / Pow(2, -e) < 0x1_0000_0000
    ensures result != Done ==> exp + |handler.buf| == count && handler.exp10 == old(handler.exp10)
    ensures result == More ==> exp == 0 && AllDigits(handler.buf) && |handler.buf| < handler.precision
    ensures result == More ==> fractional < Pow(2, -e) && f == DigitsVal(handler.buf) * Pow(2, -e) + fractional
    ensures result == Done ==> Correct(handler.buf, handler.exp10 != old(handler.exp10), f, e, 1, exp)
    ensures result == Done ==> handler.fixed ==> handler.exp10 == old(handler.exp10)
    ensures result == Done ==> 0 < |handler.buf| && handler.precision <= |handler.buf| <= count - exp + 1
    ensures result == Done ==> Complete(handler.buf, count, exp, handler.precision, handler.fixed)
    ensures result == Error ==> AllDigits(handler.buf) && 0 < |handler.buf| <= AtLeastOne(handler.precision)
    ensures result == Error ==> Blocked(DigitsVal(handler.buf), |handler.buf|, f, e, exp, handler.precision)
  {
    hide Pow, Delivered, Rounded, Correct, IntegralState, CountDigits, DigitsVal, Blocked;
    One(e);
    IntegralIsShort(f, e);
    var one: uint64 := Pow(2, -e);
    var integral: uint32 := f / one;
    fractional := f % one;
    exp := count;
    StartIntegral(f, one, count);
    result := More;
    while exp > 0 && result == More
      invariant 0 <= exp <= count && (result != More ==> exp < count)
      invariant result != Done ==> exp + |handler.buf| == count && handler.exp10 == old(handler.exp10)
      invariant result == More ==> AllDigits(handler.buf) && (handler.buf != [] ==> |handler.buf| < handler.precision)
      invariant result == More ==> 0 <= integral && fractional < one && IntegralState(f, one, DigitsVal(handler.buf), exp, integral, fractional)
      invariant result == Done ==> Correct(handler.buf, handler.exp10 != old(handler.exp10), f, e, 1, exp)
      invariant result == Done ==> handler.fixed ==> handler.exp10 == old(handler.exp10)
      invariant result == Done ==> 0 < |handler.buf| && handler.precision <= |handler.buf| <= count - exp + 1
      invariant result == Done ==> Complete(handler.buf, count, exp, handler.precision, handler.fixed)
      invariant result == Error ==> AllDigits(handler.buf) && 0 < |handler.buf| <= AtLeastOne(handler.precision)
      invariant result == Error ==> Blocked(DigitsVal(handler.buf), |handler.buf|, f, e, exp, handler.precision)
      decreases exp
    {
      ghost var before, digits := handler.buf, DigitsVal(handler.buf);
      var digit, rest := DivmodIntegral(integral, Pow(10, exp - 1));
      IntegralStep(f, one, digits, exp, integral, fractional, digit, rest);
      integral := rest;
      exp := exp - 1;
      result := IntegralDigit(f, e, count, exp, digit, integral, fractional, handler);
      DigitsPush(before, ToDigit(digit));
    }
    if result == More { FinalIntegral(f, one, DigitsVal(handler.buf), integral, fractional); }
  }

  lemma StartIntegral(f: nat, one: nat, count: nat)
    requires 0 < one && count == CountDigits(f / one)
    ensures DigitsVal([]) == 0 && 0 <= f / one && IntegralState(f, one, 0, count, f / one, f % one)
  {
    DivModFact(f, one);
  }

  lemma FinalIntegral(f: nat, one: nat, digits: int, integral: nat, fractional: nat)
    requires IntegralState(f, one, digits, 0, integral, fractional)
    ensures f == digits * one + fractional && fractional < one
  {
    assert Pow(10, 0) == 1;
  }

  lemma FinishIntegral(before: seq<char>, exp0: int, buf: seq<char>, exp10: int, precision: int, fixed: bool,
                       number: int, up: bool, f: nat, e: int, exp: nat, remainder: int)
    requires e < 0 && Delivered(before, exp0, buf, exp10, precision, fixed, number + if up then 1 else 0)
    requires Rounded(Pow(10, exp) * Pow(2, -e), remainder, 1, up)
    requires f == number * (Pow(10, exp) * Pow(2, -e)) + remainder
    ensures Correct(buf, exp10 != exp0, f, e, 1, exp)
    ensures 0 < |buf| && precision <= |buf| <= |before| + 2 && (fixed ==> exp10 == exp0)
  {
    hide DigitsVal, Rounded, Correct;
    assert Pow(10, 0) == 1;
    DeliveredIsCorrect(before, exp0, buf, exp10, precision, fixed, number, up, f, e, 1, exp, remainder);
  }

  // After k fractional digits.
  predicate FractionState(f: nat, one: nat, digits: int, k: nat, fractional: nat, error: nat)
  {
    && fractional < one && error < one && error == Pow(10, k)
    && f * Pow(10, k) == digits * one + fractional
  }

  lemma FractionStep(f: nat, one: nat, digits: int, k: nat, fractional: nat, error: nat)
    requires 0 < one && FractionState(f, one, digits, k, fractional, error)
    ensures var d, r := (fractional * 10) / one, (fractional * 10) % one;
      && 0 <= d <= 9 && 0 <= r < one
      && f * Pow(10, k + 1) == (10 * digits + d) * one + r
      && error * 10 == Pow(10, k + 1)
  {
    hide Pow;
    var d, r := (fractional * 10) / one, (fractional * 10) % one;
    DivModFact(fractional * 10, one);
    if d >= 10 { MulLe(10, d, one); }
    if d < 0 { MulLe(d, -1, one); }
    TenMore(f, k);
    assert (10 * digits + d) * one == 10 * (digits * one) + d * one by {
      MulAssoc(10, digits, one);
      assert (10 * digits + d) * one == (10 * digits) * one + d * one;
    }
  }

  lemma TenMore(f: nat, k: nat)
    ensures f * Pow(10, k + 1) == 10 * (f * Pow(10, k)) && Pow(10, k + 1) == 10 * Pow(10, k)
  {
    MulAssoc(f, 10, Pow(10, k));
    MulAssoc(10, f, Pow(10, k));
  }

  lemma FinishFraction(before: seq<char>, exp0: int, buf: seq<char>, exp10: int, precision: int, fixed: bool,
                       number: int, up: bool, f: nat, e: int, k: int, remainder: int)
    requires e < 0 && 0 < k && Delivered(before, exp0, buf, exp10, precision, fixed, number + if up then 1 else 0)
    requires Rounded(Pow(2, -e), remainder, Pow(10, k), up)
    requires f * Pow(10, k) == number * Pow(2, -e) + remainder
    ensures Correct(buf, exp10 != exp0, f, e, 1, -k)
    ensures 0 < |buf| && precision <= |buf| <= |before| + 2 && (fixed ==> exp10 == exp0)
  {
    hide DigitsVal, Rounded, Correct, Pow;
    var exp := 0 - k;
    DeliveredIsCorrect(before, exp0, buf, exp10, precision, fixed, number, up, f, e, 1, exp, remainder);
  }

  // Digits of the fractional part, until the precision is reached or the error
  // has grown too large.
  method FractionalDigits(f: uint64, e: int, start: uint64, handler: GenDigitsHandler)
      returns (result: Result, exp: int)
    requires -60 <= e <= -32 && start < Pow(2, -e)
    requires AllDigits(handler.buf) && |handler.buf| < handler.precision
    requires f == DigitsVal(handler.buf) * Pow(2, -e) + start
    modifies handler`buf, handler`exp10
    ensures result != More && exp < 0
    ensures result != Done ==> |handler.buf| == |old(handler.buf)| - exp && handler.exp10 == old(handler.exp10)
    ensures result == Done ==> Correct(handler.buf, handler.exp10 != old(handler.exp10), f, e, 1, exp)
    ensures result == Done ==> handler.fixed ==> handler.exp10 == old(handler.exp10)
    ensures result == Done ==> 0 < |handler.buf| && handler.precision <= |handler.buf| <= handler.precision + 1
    ensures result == Done ==> Complete(handler.buf, |old(handler.buf)|, exp, handler.precision, handler.fixed)
    ensures result == Error ==> AllDigits(handler.buf) && |handler.buf| <= handler.precision
    ensures result == Error ==> Blocked(DigitsVal(handler.buf), |handler.buf|, f, e, exp, handler.precision)
  {
    hide Pow, Delivered, Rounded, Correct, DigitsVal, FractionState, Blocked;
    One(e);
    var one: uint64 := Pow(2, -e);
    var fractional: uint64, error: uint64 := start, 1;
    exp := 0;
    result := More;
    ghost var k: nat := 0;
    StartFraction(f, one, DigitsVal(handler.buf), fractional);
    while result == More
      invariant k == -exp && (result != More ==> 0 < k)
      invariant result != Done ==> |handler.buf| == |old(handler.buf)| + k && handler.exp10 == old(handler.exp10)
      invariant result == More ==> AllDigits(handler.buf) && |handler.buf| < handler.precision
      invariant result == More ==> FractionState(f, one, DigitsVal(handler.buf), k, fractional, error)
      invariant result == More ==> fractional < one && error < one
      invariant result == Done ==> Correct(handler.buf, handler.exp10 != old(handler.exp10), f, e, 1, exp)
      invariant result == Done ==> handler.fixed ==> handler.exp10 == old(handler.exp10)
      invariant result == Done ==> 0 < |handler.buf| && handler.precision <= |handler.buf| <= handler.precision + 1
      invariant result == Done ==> Complete(handler.buf, |old(handler.buf)|, exp, handler.precision, handler.fixed)
      invariant result == Error ==> AllDigits(handler.buf) && |handler.buf| <= handler.precision
      invariant result == Error ==> Blocked(DigitsVal(handler.buf), |handler.buf|, f, e, exp, handler.precision)
      decreases result == More, handler.precision - |handler.buf|
    {
      ghost var before, digits := handler.buf, DigitsVal(handler.buf);
      FractionStep(f, one, digits, k, fractional, error);
      fractional := fractional * 10;
      error := error * 10;
      var digit := fractional / one;
      fractional := fractional % one;
      exp := exp - 1;
      k := k + 1;
      ghost var up;
      result, up := handler.OnDigit(digit, one, fractional, error, false);
      DigitsPush(before, ToDigit(digit));
      if result == Done {
        FinishFraction(before, old(handler.exp10), handler.buf, handler.exp10, handler.precision, handler.fixed,
                       10 * digits + digit, up, f, e, k, fractional);
        DeliveredLength(before, old(handler.exp10), handler.buf, handler.exp10, handler.precision, handler.fixed,
                        10 * digits + digit + if up then 1 else 0);
      } else if result == Error {
        BlockedHere(10 * digits + digit, |handler.buf|, f, e, exp, handler.precision, fractional);
      } else {
        MoreFraction(f, one, 10 * digits + digit, k, fractional, error);
      }
    }
  }

  lemma StartFraction(f: nat, one: nat, digits: int, fractional: nat)
    requires 1 < one && fractional < one && f == digits * one + fractional
    ensures FractionState(f, one, digits, 0, fractional, 1)
  {
    assert Pow(10, 0) == 1;
  }

  lemma MoreFraction(f: nat, one: nat, digits: int, k: nat, fractional: nat, error: nat)
    requires fractional < one && error < fractional && error == Pow(10, k)
    requires f * Pow(10, k) == digits * one + fractional
    ensures FractionState(f, one, digits, k, fractional, error)
  {
  }

  // Fixed format adjusts the precision by the position of the decimal point;
  // a precision of zero is settled by one comparison.
  method GrisuGenDigits(f: uint64, e: int, handler: GenDigitsHandler)
      returns (tooBig: bool, result: Result, exp: int)
    requires -60 <= e <= -32 && 0 < f / Pow(2, -e)
    requires handler.buf == []
    modifies handler
    ensures tooBig <==>
      var offset := CountDigits(f / Pow(2, -e)) + old(handler.exp10);
      handler.fixed && offset > 0 && old(handler.precision) > INT_MAX - offset
    ensures !tooBig ==>
      handler.precision == old(handler.precision)
                         + (if handler.fixed then CountDigits(f / Pow(2, -e)) + old(handler.exp10) else 0)
    ensures !tooBig ==> result != More
    ensures !tooBig && result == Done ==> (handler.buf == [] <==> handler.fixed && handler.precision < 0)
    ensures !tooBig && result == Done && handler.buf != [] ==>
      && Correct(handler.buf, handler.exp10 != old(handler.exp10), f, e, 1, exp)
      && (handler.precision > 0 ==> handler.precision <= |handler.buf|)
      && (handler.fixed ==> handler.exp10 == old(handler.exp10))
    ensures !tooBig && result == Done ==>
      var count := CountDigits(f / Pow(2, -e));
      if handler.fixed && handler.precision <= 0 then exp == count && |handler.buf| <= 1
      else Complete(handler.buf, count, exp, handler.precision, handler.fixed)
    ensures !tooBig && result == Error ==>
      exp + |handler.buf| == CountDigits(f / Pow(2, -e)) && handler.exp10 == old(handler.exp10)
    ensures !tooBig && result == Error ==>
      if handler.fixed && handler.precision <= 0 then
        && handler.precision == 0 && handler.buf == []
        && 20 * (f / 10 + 10) > Unit(e, exp) && 20 * (f / 10 - 10) < Unit(e, exp)
      else
        && AllDigits(handler.buf) && 0 < |handler.buf| <= AtLeastOne(handler.precision)
        && Blocked(DigitsVal(handler.buf), |handler.buf|, f, e, exp, handler.precision)
  {
    hide Pow, Correct, DigitsVal, Blocked, Unit;
    One(e);
    var count := CountDigits(f / Pow(2, -e));
    exp := count;
    tooBig := false;
    result := Done;
    if handler.fixed {
      var offset := count + handler.exp10;
      if offset > 0 && handler.precision > INT_MAX - offset { tooBig := true; return; }
      handler.precision := handler.precision + offset;
      if handler.precision <= 0 {
        if handler.precision < 0 { return; }
        result := LeadingZerosOnly(f, e, count, handler);
        return;
      }
    }
    var fractional;
    result, exp, fractional := IntegralDigits(f, e, count, handler);
    if result == More { result, exp := FractionalDigits(f, e, fractional, handler); }
  }

  // The whole number rounds to zero or one unit of the position above it.
  method LeadingZerosOnly(f: uint64, e: int, count: nat, handler: GenDigitsHandler) returns (result: Result)
    requires -60 <= e <= -32 && 0 < f / Pow(2, -e) && count == CountDigits(f / Pow(2, -e))
    requires handler.buf == []
    modifies handler`buf
    ensures result != More
    ensures result == Done ==> |handler.buf| == 1 && Correct(handler.buf, false, f, e, 1, count)
    ensures result == Error ==> handler.buf == [] && 20 * (f / 10 + 10) > Unit(e, count) && 20 * (f / 10 - 10) < Unit(e, count)
  {
    hide Pow;
    ScaledDown(f, e, count);
    DivisorFits(f, Pow(2, -e), count, count - 1);
    One(e);
    var divisor: uint64 := Pow(10, count - 1) * Pow(2, -e);
    var dir := GetRoundDirection(divisor, f / 10, 1 * 10);
    if dir == Unknown { return Error; }
    var digit := if dir == Up then 1 else 0;
    LeadingZerosCorrect(f, e, count, divisor, digit);
    handler.buf := handler.buf + [ToDigit(digit)];
    return Done;
  }

  lemma LeadingZerosCorrect(f: nat, e: int, count: nat, divisor: nat, digit: nat)
    requires e < 0 && f < Unit(e, count) == 10 * divisor && 100 <= divisor
    requires digit == 0 ==> 2 * (f / 10 + 10) <= divisor
    requires digit == 1 ==> 2 * (f / 10 - 10) >= divisor
    requires digit <= 1
    ensures Correct([ToDigit(digit)], false, f, e, 1, count)
  {
    hide Unit;
    DigitsPush([], ToDigit(digit));
    assert [] + [ToDigit(digit)] == [ToDigit(digit)];
    assert Pow(10, 0) == 1;
    assert digit == 0 || digit == 1;
  }

  lemma ScaledDown(f: nat, e: int, count: nat)
    requires e < 0 && 0 < f / Pow(2, -e) && count == CountDigits(f / Pow(2, -e))
    ensures f < Unit(e, count) == 10 * (Pow(10, count - 1) * Pow(2, -e))
  {
    hide Pow;
    var one := Pow(2, -e);
    DivModFact(f, one);
    MulLe(f / one + 1, Pow(10, count), one);
    assert (f / one + 1) * one == (f / one) * one + one;
    TenMore(one, count - 1);
    MulAssoc(10, Pow(10, count - 1), one);
  }
}
