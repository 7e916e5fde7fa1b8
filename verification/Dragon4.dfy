// Digit generation with exact integers, following the fixed-precision
// floating-point printout algorithm of Steele and White.
module Dragon4 {
  import opened Powers
  import opened Bigits
  import opened BigitColumns
  import opened BigInteger
  import opened Rounding
  import opened Digits
  import opened DragonNumbers
  import opened ShortestSpec

  // ----- Scaling ------------------------------------------------------------

  // No number of appended zeros makes r equal to s.
  ghost predicate NeverEqual(r: nat, s: nat)
  {
    forall i: nat :: r * Pow(10, i) != s
  }

  lemma NeverEqualTimesTen(r: nat, s: nat)
    requires NeverEqual(r, s)
    ensures NeverEqual(r * 10, s) && r != s
  {
    assert r * Pow(10, 0) != s;
    forall i: nat
      ensures (r * 10) * Pow(10, i) != s
    {
      MulAssoc(r, 10, Pow(10, i));
      assert r * Pow(10, i + 1) != s;
    }
  }

  // Division by the denominator cannot overlook an equal numerator.
  ghost predicate TieSafe(numerator: Bigint, denominator: Bigint)
    reads numerator, denominator
  {
    numerator.exp <= denominator.exp || NeverEqual(numerator.Value(), denominator.Value())
  }

  // Either the significand has many binary zeros, and then it is no power of
  // ten, or the numerator carries the factor five of a negative exponent.
  lemma ScaledNeverEqual(f: nat, k: nat, e: int, x: int)
    requires 0 < f < 0x4000_0000_0000_0000 && 0 < k
    requires (32 <= e && 0 <= x) || (e < 0 && x < 0)
    ensures NeverEqual(k * NumOf(f, e, x), k * DenOf(e, x))
  {
    var n, d := NumOf(f, e, x), DenOf(e, x);
    forall i: nat
      ensures (k * n) * Pow(10, i) != k * d
    {
      if e >= 0 { NeverPowerOfTen(f, e, i, x); } else { NeverPowerOfTwo(f, -x, i, -e); }
      MulAssoc(k, n, Pow(10, i));
      MulEqual(n * Pow(10, i), d, k);
    }
  }

  // The exponents of the numerator and of the lower boundary distance end up
  // equal once a digit has been divided off.
  predicate TieSeen(e: int, x: int, shift: nat)
  {
    if e >= 0 then e / 32 <= x / 32
    else if x < 0 then (-x) / 32 <= (shift - e) / 32
    else true
  }

  lemma SmallPowers(shift: nat)
    requires shift == 1 || shift == 2
    ensures Pow(2, shift) == 2 * shift && Pow(2, 1) == 2
  {
  }

  lemma ScaleIntegerFacts(f: nat, e: nat, x: nat, shift: nat)
    ensures Pow(2, e + 1) == 2 * Pow(2, e)
    ensures NumOf(f, e, x) == f * Pow(2, e) && Ulp(e, x) == Pow(2, e) && DenOf(e, x) == Pow(10, x)
    ensures (f * (2 * shift)) * Pow(2, e) == 2 * shift * NumOf(f, e, x)
  {
    MulAssoc(2 * shift, f, Pow(2, e));
  }

  lemma ScaleNegativeFacts(f: nat, e: int, x: int, shift: nat)
    requires (shift == 1 || shift == 2) && e < 0 && x < 0
    ensures NumOf(f, e, x) == f * Pow(10, -x) && Ulp(e, x) == Pow(10, -x) && DenOf(e, x) == Pow(2, -e)
    ensures Pow(10, -x) * (f * (2 * shift)) == 2 * shift * NumOf(f, e, x)
    ensures Pow(2, shift - e) == 2 * shift * DenOf(e, x)
  {
    SmallPowers(shift);
    PowAdd(2, shift, -e);
    MulAssoc(2 * shift, f, Pow(10, -x));
  }

  lemma ScaleFractionFacts(f: nat, e: int, x: nat, shift: nat)
    requires (shift == 1 || shift == 2) && e < 0
    ensures NumOf(f, e, x) == f && Ulp(e, x) == 1
    ensures Pow(10, x) * Pow(2, shift - e) == 2 * shift * DenOf(e, x)
  {
    SmallPowers(shift);
    PowAdd(2, shift, -e);
    MulAssoc(2 * shift, Pow(2, -e), Pow(10, x));
  }

  lemma MulEqual(x: int, y: int, k: nat)
    requires 0 < k
    ensures k * x == k * y <==> x == y
  {
    if x < y { MulLt(x, y, k); } else if y < x { MulLt(y, x, k); }
  }

  // Numerator, denominator and boundary distances over a common scale, so that
  // value == numerator / denominator * 10^exp10.
  ghost predicate Represents(f: nat, e: int, exp10: int, shift: nat,
                             numerator: Bigint, denominator: Bigint, lower: Bigint, upper: Bigint)
    reads numerator, denominator, lower, upper
  {
    && numerator.Valid() && denominator.Valid() && lower.Valid() && upper.Valid()
    && numerator.exp == lower.exp
    && (lower.exp <= denominator.exp <==> TieSeen(e, exp10, shift))
    && numerator.Value() == 2 * shift * NumOf(f, e, exp10)
    && denominator.Value() == 2 * shift * DenOf(e, exp10)
    && lower.Value() == Ulp(e, exp10)
    && upper.Value() == shift * Ulp(e, exp10)
  }

  method ScaleInteger(f: nat, e: nat, exp10: nat, shift: nat,
                      numerator: Bigint, denominator: Bigint, lower: Bigint, upper: Bigint)
    requires 0 < f < 0x4000_0000_0000_0000 && exp10 < 0x4000_0000 && (shift == 1 || shift == 2)
    requires numerator != denominator && numerator != lower && denominator != lower
    requires upper != numerator && upper != denominator && (upper == lower <==> shift == 1)
    modifies numerator, denominator, lower, upper
    ensures Represents(f, e, exp10, shift, numerator, denominator, lower, upper)
    ensures denominator.exp == exp10 / 32 && numerator.exp == e / 32
  {
    hide Pow, NumOf, DenOf, Ulp, Bigits.Value;
    SmallPowers(shift);
    ScaleIntegerFacts(f, e, exp10, shift);
    numerator.Assign(f * (2 * shift));
    numerator.ShiftLeft(e);
    lower.Assign(1);
    lower.ShiftLeft(e);
    if shift != 1 {
      upper.Assign(1);
      upper.ShiftLeft(e + 1);
    }
    denominator.AssignPow10(exp10);
    denominator.ShiftLeft(shift);
  }

  method ScaleNegative(f: nat, e: int, exp10: int, shift: nat,
                       numerator: Bigint, denominator: Bigint, lower: Bigint, upper: Bigint)
    requires 0 < f < 0x4000_0000_0000_0000 && -0x4000_0000 < exp10 < 0 && e < 0 && (shift == 1 || shift == 2)
    requires numerator != denominator && numerator != lower && denominator != lower
    requires upper != numerator && upper != denominator && (upper == lower <==> shift == 1)
    modifies numerator, denominator, lower, upper
    ensures Represents(f, e, exp10, shift, numerator, denominator, lower, upper)
  {
    hide Pow, NumOf, DenOf, Ulp, Bigits.Value;
    SmallPowers(shift);
    ScaleNegativeFacts(f, e, exp10, shift);
    numerator.AssignPow10(-exp10);
    lower.AssignBigint(numerator);
    if shift != 1 {
      upper.AssignBigint(numerator);
      upper.ShiftLeft(1);
    }
    numerator.Multiply64(f * (2 * shift));
    denominator.Assign(1);
    denominator.ShiftLeft(shift - e);
  }

  method ScaleFraction(f: nat, e: int, exp10: nat, shift: nat,
                       numerator: Bigint, denominator: Bigint, lower: Bigint, upper: Bigint)
    requires 0 < f < 0x4000_0000_0000_0000 && exp10 < 0x4000_0000 && e < 0 && (shift == 1 || shift == 2)
    requires numerator != denominator && numerator != lower && denominator != lower
    requires upper != numerator && upper != denominator && (upper == lower <==> shift == 1)
    modifies numerator, denominator, lower, upper
    ensures Represents(f, e, exp10, shift, numerator, denominator, lower, upper)
    ensures numerator.exp == 0
  {
    hide Pow, NumOf, DenOf, Ulp, Bigits.Value;
    SmallPowers(shift);
    ScaleFractionFacts(f, e, exp10, shift);
    numerator.Assign(f * (2 * shift));
    denominator.AssignPow10(exp10);
    denominator.ShiftLeft(shift - e);
    lower.Assign(1);
    if shift != 1 { upper.Assign(2); }
  }

  method Scale(f: nat, e: int, closer: bool, exp10: int)
      returns (numerator: Bigint, denominator: Bigint, lower: Bigint, upper: Bigint)
    requires 0 < f < 0x4000_0000_0000_0000
    requires -0x4000_0000 < exp10 < 0x4000_0000
    requires 0 <= e ==> 0 <= exp10
    ensures fresh(numerator) && fresh(denominator) && fresh(lower) && fresh(upper)
    ensures numerator != denominator && lower != numerator && lower != denominator
    ensures upper != numerator && upper != denominator && (upper == lower <==> !closer)
    ensures Represents(f, e, exp10, if closer then 2 else 1, numerator, denominator, lower, upper)
    ensures TieSafe(numerator, denominator)
  {
    hide Represents, NeverEqual, NumOf, DenOf, Pow;
    var shift := if closer then 2 else 1;
    numerator := new Bigint();
    denominator := new Bigint();
    lower := new Bigint();
    upper := lower;
    if closer { upper := new Bigint(); }
    if e >= 0 {
      ScaleInteger(f, e, exp10, shift, numerator, denominator, lower, upper);
      if 32 <= e { ScaledNeverEqual(f, 2 * shift, e, exp10); }
    } else if exp10 < 0 {
      ScaleNegative(f, e, exp10, shift, numerator, denominator, lower, upper);
      ScaledNeverEqual(f, 2 * shift, e, exp10);
    } else {
      ScaleFraction(f, e, exp10, shift, numerator, denominator, lower, upper);
    }
    ScaledValues(f, e, exp10, shift, numerator, denominator, lower, upper);
  }

  lemma ScaledValues(f: nat, e: int, exp10: int, shift: nat,
                     numerator: Bigint, denominator: Bigint, lower: Bigint, upper: Bigint)
    requires Represents(f, e, exp10, shift, numerator, denominator, lower, upper)
    ensures numerator.Value() == 2 * shift * NumOf(f, e, exp10)
    ensures denominator.Value() == 2 * shift * DenOf(e, exp10)
  {
  }

  lemma NonZeroIsNormal(n: Bigint)
    requires n.Valid()
    ensures n.Value() > 0 <==> n.Normal()
  {
    ZeroValue(n.bigits, n.exp);
  }

  // ----- Digits -------------------------------------------------------------

  // The state between two digits.
  ghost predicate Ready(numerator: Bigint, denominator: Bigint)
    reads numerator, denominator
  {
    && numerator.Valid() && denominator.Normal()
    && TieSafe(numerator, denominator)
    && (numerator.Value() == 0 ==> numerator.exp <= denominator.exp)
  }

  lemma QuotientRoom(n: Bigint, d: Bigint)
    requires n.Valid() && d.Normal() && n.Value() < 10 * d.Value()
    requires n.Value() == 0 ==> n.exp <= d.exp
    ensures n.NumBigits() <= d.NumBigits() + 1
  {
    ValueBound(d.bigits, d.exp);
    ZeroValue(n.bigits, n.exp);
    if n.Normal() {
      ValueTop(n.bigits, n.exp);
      WeightStep(d.NumBigits());
      if d.NumBigits() + 1 < n.NumBigits() { WeightMonotone(d.NumBigits() + 1, n.NumBigits() - 1); }
    }
  }

  method DivideDigit(numerator: Bigint, denominator: Bigint) returns (digit: nat)
    requires numerator != denominator && Ready(numerator, denominator)
    requires numerator.Value() < 10 * denominator.Value()
    modifies numerator
    ensures Ready(numerator, denominator)
    ensures numerator.Value() < denominator.Value()
    ensures old(numerator.Value()) == digit * denominator.Value() + numerator.Value()
    ensures digit <= 9
    ensures numerator.exp == if digit == 0 || old(numerator.exp) <= denominator.exp
                             then old(numerator.exp) else denominator.exp
  {
    hide Bigits.Value, NeverEqual;
    QuotientRoom(numerator, denominator);
    if numerator.exp > denominator.exp { NeverEqualTimesTen(numerator.Value(), denominator.Value()); }
    ghost var d := denominator.Value();
    digit := numerator.DivmodAssign(denominator);
    if digit == 0 { assert digit * d == 0; }
    if digit >= 10 { MulLe(10, digit, d); }
  }

  method TimesTen(numerator: Bigint, denominator: Bigint)
    requires numerator != denominator && Ready(numerator, denominator)
    modifies numerator`bigits
    ensures Ready(numerator, denominator)
    ensures numerator.Value() == old(numerator.Value()) * 10
  {
    hide Bigits.Value, NeverEqual;
    if numerator.exp > denominator.exp { NeverEqualTimesTen(numerator.Value(), denominator.Value()); }
    numerator.Multiply32(10);
  }

  lemma BoundedByDenominator(numerator: Bigint, denominator: Bigint)
    requires Ready(numerator, denominator)
    ensures Bounded(numerator, denominator) && denominator.Normal()
  {
    ZeroValue(numerator.bigits, numerator.exp);
  }

  // After i digits, written as one number, ten times the digits and the rest
  // make up the scaled numerator.
  predicate Accounts(r: nat, s: nat, i: nat, digits: int, rest: int)
  {
    r * Pow(10, i) == digits * 10 * s + rest
  }

  lemma AccountsStart(r: nat, s: nat)
    ensures Accounts(r, s, 0, 0, r)
  {
  }

  lemma AccountsStep(r: nat, s: nat, i: nat, digits: int, rest: int, digit: nat, rest': int)
    requires Accounts(r, s, i, digits, rest) && rest == digit * s + rest'
    ensures Accounts(r, s, i + 1, 10 * digits + digit, rest' * 10)
    ensures r * Pow(10, i) == (10 * digits + digit) * s + rest'
  {
    hide Pow;
    AddFactors(10 * digits, digit, s);
    MulAssoc(10 * digits + digit, 10, s);
    TenthPower(i);
    MulAssoc(r, Pow(10, i), 10);
  }

  lemma RoundLastDigit(r: nat, s: nat, i: nat, leading: nat, rest: int, digit: nat, rest': nat)
    requires Accounts(r, s, i, leading, rest) && rest == digit * s + rest' && rest' < s
    ensures IsNearestEven(r * Pow(10, i), s,
              10 * leading + if 2 * rest' > s || (2 * rest' == s && digit % 2 != 0) then digit + 1 else digit)
  {
    hide Accounts, Pow;
    AccountsStep(r, s, i, leading, rest, digit, rest');
    RoundFromRemainder(r * Pow(10, i), s, 10 * leading + digit, rest');
  }

  // All digits but the last.
  method LeadingDigits(numerator: Bigint, denominator: Bigint, count: nat) returns (buf: seq<char>)
    requires numerator != denominator && Ready(numerator, denominator)
    requires numerator.Value() < 10 * denominator.Value()
    modifies numerator
    ensures |buf| == count && AllDigits(buf)
    ensures Ready(numerator, denominator) && numerator.Value() < 10 * denominator.Value()
    ensures Accounts(old(numerator.Value()), denominator.Value(), count, DigitsVal(buf), numerator.Value())
  {
    hide Bigits.Value, NeverEqual, Ready, DigitsVal, Accounts;
    ghost var r, s := numerator.Value(), denominator.Value();
    buf := [];
    NoDigits();
    AccountsStart(r, s);
    while |buf| < count
      invariant |buf| <= count && AllDigits(buf) && denominator.Value() == s
      invariant Ready(numerator, denominator) && numerator.Value() < 10 * s
      invariant Accounts(r, s, |buf|, DigitsVal(buf), numerator.Value())
    {
      ghost var rest := numerator.Value();
      var digit := DivideDigit(numerator, denominator);
      AccountsStep(r, s, |buf|, DigitsVal(buf), rest, digit, numerator.Value());
      DigitsPush(buf, ToDigit(digit));
      buf := buf + [ToDigit(digit)];
      TimesTen(numerator, denominator);
    }
  }

  // The given number of digits, rounded to nearest even at the last one.
  method FixedDigits(numerator: Bigint, denominator: Bigint, numDigits: nat)
      returns (buf: seq<char>, overflow: bool)
    requires numDigits > 0
    requires numerator != denominator && Ready(numerator, denominator)
    requires numerator.Value() < 10 * denominator.Value()
    modifies numerator
    ensures |buf| == numDigits && AllDigits(buf) && 0 <= DigitsVal(buf)
    ensures IsNearestEven(old(numerator.Value()) * Pow(10, numDigits - 1), denominator.Value(),
                          if overflow then 10 * DigitsVal(buf) else DigitsVal(buf))
    ensures overflow ==> DigitsVal(buf) == Pow(10, numDigits - 1)
  {
    hide Bigits.Value, NeverEqual, Ready, DigitsVal, Accounts, IsNearestEven, Pow;
    ghost var r, s := numerator.Value(), denominator.Value();
    buf := LeadingDigits(numerator, denominator, numDigits - 1);
    ghost var rest, leading := numerator.Value(), DigitsVal(buf);
    var digit := DivideDigit(numerator, denominator);
    DigitsNonNegative(buf);
    RoundLastDigit(r, s, |buf|, leading, rest, digit, numerator.Value());
    BoundedByDenominator(numerator, denominator);
    var result := AddCompare(numerator, numerator, denominator);
    if result > 0 || (result == 0 && digit % 2 != 0) { digit := digit + 1; }
    buf, overflow := AppendRounded(buf, digit);
  }

  lemma NoDigits()
    ensures DigitsVal([]) == 0
  {
  }

  // ----- Shortest representation --------------------------------------------

  // While the quotient is zero the numerator keeps the exponent of the lower
  // boundary; the first non-zero digit aligns it with the denominator.
  ghost predicate Exponents(numerator: Bigint, denominator: Bigint, lower: Bigint, v: Scaled, k: nat)
    reads numerator, denominator, lower
  {
    && v.seen == (lower.exp <= denominator.exp)
    && (numerator.exp == lower.exp || (!v.seen && numerator.exp == denominator.exp))
    && (!v.seen && numerator.exp == lower.exp ==> numerator.Value() == v.r * Pow(10, k))
  }

  ghost predicate Distances(lower: Bigint, upper: Bigint, v: Scaled, k: nat)
    reads lower, upper
  {
    && lower.Normal() && upper.Normal()
    && lower.Value() == v.l * Pow(10, k) && upper.Value() == v.u * Pow(10, k)
  }

  method Decide(numerator: Bigint, denominator: Bigint, lower: Bigint, upper: Bigint, even: bool,
                ghost v: Scaled, ghost k: nat) returns (low: bool, high: bool)
    requires v.Valid() && v.even == even && denominator.Value() == v.s
    requires Ready(numerator, denominator) && Distances(lower, upper, v, k)
    requires Exponents(numerator, denominator, lower, v, k)
    requires numerator.Value() == v.Rem(k)
    ensures low == v.Low(k) && high == v.High(k)
  {
    hide Bigits.Value, NeverEqual, Scaled.Rem, Pow;
    ZeroValue(numerator.bigits, numerator.exp);
    MulLt(v.l, v.r, Pow(10, k));
    var order := Compare(numerator, lower);
    low := order - (if even then 1 else 0) < 0;
    order := AddCompare(numerator, upper, denominator);
    high := order + (if even then 1 else 0) > 0;
  }

  // The rounding of the last digit.
  method LastDigit(numerator: Bigint, denominator: Bigint, digit: nat, low: bool, high: bool,
                   ghost v: Scaled, ghost k: nat) returns (last: nat)
    requires v.Valid() && denominator.Value() == v.s && Ready(numerator, denominator)
    requires numerator.Value() == v.Rem(k) && digit <= 9 && v.Quo(k) % 2 == digit % 2
    requires low == v.Low(k) && high == v.High(k)
    ensures last == digit + if v.RoundUp(k) then 1 else 0
  {
    hide Bigits.Value, NeverEqual, Scaled.Rem, Scaled.Quo, Pow;
    last := digit;
    if !low {
      last := last + 1;
    } else if high {
      BoundedByDenominator(numerator, denominator);
      var result := AddCompare(numerator, numerator, denominator);
      if result > 0 || (result == 0 && digit % 2 != 0) { last := last + 1; }
    }
  }

  // The digits before position k, and the value left for it.
  predicate Produced(v: Scaled, k: nat, buf: seq<char>, rest: nat)
    requires v.Valid()
  {
    && |buf| == k && AllDigits(buf) && rest < 10 * v.s
    && (forall j :: 0 <= j < k ==> !v.Stop(j))
    && if k == 0 then rest == v.r else rest == 10 * v.Rem(k - 1) && DigitsVal(buf) == v.Quo(k - 1)
  }

  lemma ProduceDigit(v: Scaled, k: nat, buf: seq<char>, rest: nat, digit: nat, rest': nat)
    requires v.Valid() && Produced(v, k, buf, rest)
    requires rest == digit * v.s + rest' && rest' < v.s && digit <= 9
    ensures v.Rem(k) == rest' && v.Quo(k) == 10 * DigitsVal(buf) + digit
    ensures !v.Stop(k) ==> Produced(v, k + 1, buf + [ToDigit(digit)], rest' * 10)
    ensures v.Stop(k) ==> (digit == 9 && v.RoundUp(k) <==> k == 0 && FirstDigitOverflows(v))
  {
    hide Scaled.Quo, Scaled.Rem, Pow, DigitsVal, Scaled.Stop, Scaled.RoundUp, FirstDigitOverflows;
    DigitsPush(buf, ToDigit(digit));
    if k == 0 {
      NoDigits();
      assert buf == [];
      FirstDigit(v, digit, rest');
      FirstNine(v.r, v.s, digit, rest');
      FirstDigitRoundedUp(v);
    } else {
      assert !v.Stop(k - 1);
      NextDigit(v, k - 1, digit, rest');
      if v.Stop(k) { NineStays(v, k - 1, digit, rest'); }
    }
  }

  lemma FirstNine(r: nat, s: nat, digit: nat, rest: nat)
    requires r == digit * s + rest && rest < s && digit <= 9
    ensures 9 * s <= r <==> digit == 9
  {
    if digit <= 8 { MulLe(digit, 8, s); }
  }

  lemma StartProduced(v: Scaled)
    requires v.Valid()
    ensures Produced(v, 0, [], v.r)
  {
  }

  lemma ProducedFacts(v: Scaled, k: nat, buf: seq<char>, rest: nat)
    requires v.Valid() && Produced(v, k, buf, rest)
    ensures |buf| == k && AllDigits(buf) && rest < 10 * v.s
    ensures forall j :: 0 <= j < k ==> !v.Stop(j)
  {
  }

  lemma StopMeans(v: Scaled, k: nat)
    requires v.Valid()
    ensures v.Stop(k) <==> v.Low(k) || v.High(k)
    ensures v.Result(k) == v.Quo(k) + if v.RoundUp(k) then 1 else 0
  {
  }

  lemma UpperValue(lower: Bigint, upper: Bigint, v: Scaled, k: nat)
    requires Distances(lower, upper, v, k)
    ensures upper.Value() == v.u * Pow(10, k)
  {
  }

  // Going on means that the upper distance is still within the denominator.
  lemma DistanceBound(v: Scaled, k: nat)
    requires v.Valid() && !v.Stop(k)
    ensures 0 < v.u * Pow(10, k) <= v.s
  {
    hide Pow;
    QuoRem(v, k);
    Boundaries(v, k);
  }

  method ScaleDistances(lower: Bigint, upper: Bigint, ghost v: Scaled, ghost k: nat)
    requires Distances(lower, upper, v, k)
    requires lower == upper ==> v.l == v.u
    modifies lower`bigits, upper`bigits
    ensures Distances(lower, upper, v, k + 1)
    ensures upper.Value() == 10 * old(upper.Value())
  {
    hide Bigits.Value, Pow;
    TenthPower(k);
    MulAssoc(v.l, Pow(10, k), 10);
    MulAssoc(v.u, Pow(10, k), 10);
    NonZeroIsNormal(lower);
    NonZeroIsNormal(upper);
    lower.Multiply32(10);
    if upper != lower { upper.Multiply32(10); }
    NonZeroIsNormal(lower);
    NonZeroIsNormal(upper);
  }

  // What holds between two digits of the shortest representation.
  ghost predicate Generating(numerator: Bigint, denominator: Bigint, lower: Bigint, upper: Bigint,
                             v: Scaled, buf: seq<char>)
    reads numerator, denominator, lower, upper
  {
    && numerator != denominator && lower != numerator && lower != denominator
    && upper != numerator && upper != denominator && (lower == upper ==> v.l == v.u)
    && v.Valid() && denominator.Value() == v.s
    && Ready(numerator, denominator) && Distances(lower, upper, v, |buf|)
    && Exponents(numerator, denominator, lower, v, |buf|)
    && Produced(v, |buf|, buf, numerator.Value())
  }

  // Stores the last digit after rounding it.
  method Finish(buf: seq<char>, numerator: Bigint, denominator: Bigint, digit: nat, low: bool, high: bool,
                ghost v: Scaled, ghost k: nat) returns (buf': seq<char>)
    requires v.Valid() && denominator.Value() == v.s && Ready(numerator, denominator)
    requires numerator.Value() == v.Rem(k) && digit <= 9 && v.Quo(k) == 10 * DigitsVal(buf) + digit
    requires low == v.Low(k) && high == v.High(k) && AllDigits(buf)
    ensures |buf'| == |buf| + 1 && DigitsVal(buf') == v.Result(k)
    ensures AllDigits(buf') <==> !(digit == 9 && v.RoundUp(k))
  {
    hide Bigits.Value, NeverEqual, Ready, Pow, Scaled.Quo, Scaled.Rem, Scaled.Low, Scaled.High, Scaled.RoundUp;
    var last := LastDigit(numerator, denominator, digit, low, high, v, k);
    DigitsPush(buf, ToDigit(last));
    buf' := buf + [ToDigit(last)];
    assert buf'[|buf|] == ToDigit(last);
  }

  // One digit. Either it is the last one, or generation goes on.
  method ShortestStep(numerator: Bigint, denominator: Bigint, lower: Bigint, upper: Bigint, even: bool,
                      ghost v: Scaled, buf: seq<char>) returns (buf': seq<char>, done: bool)
    requires Generating(numerator, denominator, lower, upper, v, buf) && v.even == even
    modifies numerator, lower`bigits, upper`bigits
    ensures |buf'| == |buf| + 1
    ensures done <==> v.Stop(|buf|)
    ensures done ==> DigitsVal(buf') == v.Result(|buf|)
    ensures done ==> (AllDigits(buf') <==> !(|buf| == 0 && FirstDigitOverflows(v)))
    ensures !done ==> Generating(numerator, denominator, lower, upper, v, buf')
    ensures !done ==> old(upper.Value()) <= v.s && upper.Value() == 10 * old(upper.Value()) && old(upper.Value()) > 0
  {
    hide Bigits.Value, NeverEqual, Ready, Distances, Produced, FirstDigitOverflows, Pow, DigitsVal, AllDigits;
    hide Scaled.Stop, Scaled.RoundUp, Scaled.Quo, Scaled.Rem, Scaled.Low, Scaled.High, Scaled.Result, Scaled.Valid;
    ghost var k, rest := |buf|, numerator.Value();
    ProducedFacts(v, k, buf, rest);
    var digit := DivideDigit(numerator, denominator);
    NoQuotient(digit, v.s);
    ProduceDigit(v, k, buf, rest, digit, numerator.Value());
    var low, high := Decide(numerator, denominator, lower, upper, even, v, k);
    StopMeans(v, k);
    UpperValue(lower, upper, v, k);
    done := low || high;
    if done {
      buf' := Finish(buf, numerator, denominator, digit, low, high, v, k);
    } else {
      buf' := buf + [ToDigit(digit)];
      GoOn(numerator, denominator, lower, upper, v, k, digit, buf');
    }
  }

  // Scales everything up for the next digit.
  method GoOn(numerator: Bigint, denominator: Bigint, lower: Bigint, upper: Bigint,
              ghost v: Scaled, ghost k: nat, digit: nat, ghost buf: seq<char>)
    requires numerator != denominator && lower != numerator && lower != denominator
    requires upper != numerator && upper != denominator && (lower == upper ==> v.l == v.u)
    requires v.Valid() && !v.Stop(k) && denominator.Value() == v.s && |buf| == k + 1
    requires Ready(numerator, denominator) && Distances(lower, upper, v, k)
    requires Exponents(numerator, denominator, lower, v, k)
    requires Produced(v, k + 1, buf, numerator.Value() * 10)
    modifies numerator`bigits, lower`bigits, upper`bigits
    ensures Generating(numerator, denominator, lower, upper, v, buf)
    ensures old(upper.Value()) <= v.s && upper.Value() == 10 * old(upper.Value()) && old(upper.Value()) > 0
  {
    hide Bigits.Value, NeverEqual, Ready, Distances, Produced, Pow, Scaled.Stop, Scaled.Valid;
    UpperValue(lower, upper, v, k);
    DistanceBound(v, k);
    AppendTen(v, k);
    TimesTen(numerator, denominator);
    ScaleDistances(lower, upper, v, k);
  }

  lemma NoQuotient(digit: nat, s: nat)
    ensures digit == 0 ==> digit * s == 0
  {
  }

  lemma AppendTen(v: Scaled, k: nat)
    ensures v.r * Pow(10, k + 1) == (v.r * Pow(10, k)) * 10
  {
    MulAssoc(v.r, Pow(10, k), 10);
  }

  method ShortestDigits(numerator: Bigint, denominator: Bigint, lower: Bigint, upper: Bigint, even: bool,
                        ghost v: Scaled) returns (buf: seq<char>)
    requires Generating(numerator, denominator, lower, upper, v, []) && v.even == even
    modifies numerator, lower, upper
    ensures v.Valid() && |buf| > 0 && v.Stop(|buf| - 1) && forall j :: 0 <= j < |buf| - 1 ==> !v.Stop(j)
    ensures DigitsVal(buf) == v.Result(|buf| - 1)
    ensures AllDigits(buf) <==> !(|buf| == 1 && FirstDigitOverflows(v))
  {
    hide Generating;
    hide Bigits.Value, DigitsVal, FirstDigitOverflows, Scaled.Stop, Scaled.Valid;
    buf := [];
    GeneratingFacts(numerator, denominator, lower, upper, v, buf);
    var done := false;
    while !done
      invariant !done ==> Generating(numerator, denominator, lower, upper, v, buf)
      invariant v.Valid() && forall j :: 0 <= j < |buf| - 1 ==> !v.Stop(j)
      invariant !done && |buf| > 0 ==> !v.Stop(|buf| - 1)
      invariant done ==> |buf| > 0 && v.Stop(|buf| - 1) && DigitsVal(buf) == v.Result(|buf| - 1)
      invariant done ==> (AllDigits(buf) <==> !(|buf| == 1 && FirstDigitOverflows(v)))
      invariant !done && |buf| > 0 ==> upper.Value() <= 10 * v.s
      decreases !done, 10 * v.s - upper.Value()
    {
      buf, done := ShortestStep(numerator, denominator, lower, upper, even, v, buf);
    }
  }

  lemma GeneratingFacts(numerator: Bigint, denominator: Bigint, lower: Bigint, upper: Bigint,
                        v: Scaled, buf: seq<char>)
    requires Generating(numerator, denominator, lower, upper, v, buf)
    ensures v.Valid()
  {
  }

  // ----- The formatter ------------------------------------------------------

  function Shift(closer: bool): nat
  {
    if closer then 2 else 1
  }

  // The scaled fraction that stands for f * 2^e / 10^exp10. One unit of l is
  // the distance to the lower boundary, halfway to the neighbouring value.
  function ScaledOf(f: nat, e: int, closer: bool, exp10: int): Scaled
  {
    var k := Shift(closer);
    Scaled(2 * k * NumOf(f, e, exp10), 2 * k * DenOf(e, exp10), Ulp(e, exp10), k * Ulp(e, exp10),
           f % 2 == 0, TieSeen(e, exp10, k))
  }

  lemma ScaledIsValid(f: nat, e: int, closer: bool, exp10: int)
    requires 0 < f && NumOf(f, e, exp10) < 10 * DenOf(e, exp10)
    ensures ScaledOf(f, e, closer, exp10).Valid()
  {
    var v := ScaledOf(f, e, closer, exp10);
    AtLeastOneUlp(f, e, exp10);
    hide NumOf, DenOf, Ulp, TieSeen;
    assert closer ==> v.r == 4 * NumOf(f, e, exp10) && v.s == 4 * DenOf(e, exp10) && v.u == 2 * v.l;
    assert !closer ==> v.r == 2 * NumOf(f, e, exp10) && v.s == 2 * DenOf(e, exp10) && v.u == v.l;
  }

  lemma AtLeastOneUlp(f: nat, e: int, x: int)
    requires 0 < f
    ensures Ulp(e, x) <= NumOf(f, e, x)
  {
    MulLe(1, f, Ulp(e, x));
  }

  // Carries a rounded quotient over to the exponent it is printed with.
  lemma FixedMeaning(f: nat, e: int, x: int, k: nat, n: nat, q: nat)
    requires 0 < k && 0 < n
    requires IsNearestEven((k * NumOf(f, e, x)) * Pow(10, n - 1), k * DenOf(e, x), q)
    ensures IsNearestEven(NumOf(f, e, x - n + 1), DenOf(e, x - n + 1), q)
  {
    hide NumOf, DenOf, Pow, IsNearestEven;
    var num, den := NumOf(f, e, x), DenOf(e, x);
    var num', den' := NumOf(f, e, x - n + 1), DenOf(e, x - n + 1);
    LowerExponent(f, e, x, n - 1);
    assert x - (n - 1) == x - n + 1;
    MulAssoc(k, num, Pow(10, n - 1));
    var scaled := num * Pow(10, n - 1);
    assert (k * scaled) * den' == num' * (k * den) by {
      MulAssoc(k, scaled, den');
      MulAssoc(num', k, den);
      MulAssoc(k, num', den);
    }
    NearestEvenRatio((k * num) * Pow(10, n - 1), k * den, num', den', q);
  }

  lemma CoarserExponent(f: nat, e: int, x: int, q: nat)
    requires IsNearestEven(NumOf(f, e, x), DenOf(e, x), 10 * q)
    ensures IsNearestEven(NumOf(f, e, x + 1), DenOf(e, x + 1), q)
  {
    hide NumOf, DenOf, IsNearestEven;
    LowerExponent(f, e, x + 1, 1);
    assert Pow(10, 1) == 10;
    var num, den := NumOf(f, e, x), DenOf(e, x);
    var num', den' := NumOf(f, e, x + 1), DenOf(e, x + 1);
    NearestCoarser(num, den, q);
    MulAssoc(num', 10, den);
    NearestEvenRatio(num, 10 * den, num', den', q);
  }

  // ----- The rounding interval of a floating-point number ---------------------

  // Four times the boundaries of f, in units of the last place: halfway to the
  // neighbours, of which the lower one may be only half as far.
  function LowerBoundary(f: nat, closer: bool): nat
    requires 0 < f
  {
    if closer then 4 * f - 1 else 4 * f - 2
  }

  function UpperBoundary(f: nat): nat
  {
    4 * f + 2
  }

  // m * 10^x rounds to f * 2^e. Ties go to the even significand.
  predicate RoundsTo(f: nat, e: int, closer: bool, x: int, m: int)
    requires 0 < f
  {
    var low, high, d := NumOf(LowerBoundary(f, closer), e, x), NumOf(UpperBoundary(f), e, x), (4 * m) * DenOf(e, x);
    if f % 2 == 0 then low <= d <= high else low < d < high
  }

  // The lower boundary is a multiple of 10^x.
  predicate BoundaryIsDecimal(f: nat, e: int, closer: bool, x: int)
    requires 0 < f
  {
    NumOf(LowerBoundary(f, closer), e, x) % (4 * DenOf(e, x)) == 0
  }

  lemma LowerCompare(g: nat, e: int, x: int, j: nat, y: int)
    ensures NumOf(g, e, x) * Pow(10, j) < y * DenOf(e, x) <==> NumOf(g, e, x - j) < y * DenOf(e, x - j)
    ensures NumOf(g, e, x) * Pow(10, j) == y * DenOf(e, x) <==> NumOf(g, e, x - j) == y * DenOf(e, x - j)
  {
    hide NumOf, DenOf, Pow;
    var n, n', d, d' := NumOf(g, e, x) * Pow(10, j), NumOf(g, e, x - j), DenOf(e, x), DenOf(e, x - j);
    LowerExponent(g, e, x, j);
    ScaleOrder(n, y * d, d');
    ScaleOrder(n', y * d', d);
    MulAssoc(y, d, d');
    MulAssoc(y, d', d);
  }

  // The scaled distances are those of f * 2^e itself.
  lemma ScaledParts(f: nat, e: int, closer: bool, x: int)
    requires 0 < f
    ensures var v := ScaledOf(f, e, closer, x); var k := if closer then 1 else 2;
      && NumOf(LowerBoundary(f, closer), e, x) == k * (v.r - v.l) && NumOf(UpperBoundary(f), e, x) == k * (v.r + v.u)
      && 4 * DenOf(e, x) == k * v.s
  {
    BoundarySums(f, Ulp(e, x), closer);
    hide DenOf, Ulp, TieSeen;
  }

  // A multiple of the denominator against a boundary, both taken k times.
  lemma SameOrder(a: int, s: int, k: nat, b: int, d: int, p: int, m: int)
    requires (k == 1 || k == 2) && b == k * a && 4 * d == k * s
    ensures a * p < m * s <==> b * p < (4 * m) * d
    ensures a * p == m * s <==> b * p == (4 * m) * d
  {
    MulAssoc(k, a, p);
    MulAssoc(m, 4, d);
    MulAssoc(m, k, s);
    MulAssoc(k, m, s);
    assert (4 * m) * d == k * (m * s);
  }

  lemma BoundarySums(f: nat, p: nat, closer: bool)
    requires 0 < f
    ensures LowerBoundary(f, closer) * p == 4 * (f * p) - (if closer then p else 2 * p)
    ensures UpperBoundary(f) * p == 4 * (f * p) + 2 * p
  {
  }

  // The interval of the specification is the rounding interval.
  lemma IntervalMeaning(f: nat, e: int, closer: bool, x: int, j: nat, m: int)
    requires 0 < f && ScaledOf(f, e, closer, x).Valid()
    ensures var v := ScaledOf(f, e, closer, x);
      && (v.Within(j, m) <==> RoundsTo(f, e, closer, x - j, m))
      && ((v.r - v.l) * Pow(10, j) == m * v.s <==>
            NumOf(LowerBoundary(f, closer), e, x - j) == (4 * m) * DenOf(e, x - j))
  {
    hide NumOf, DenOf, TieSeen, Pow, LowerBoundary, UpperBoundary, ScaledOf;
    var v, k, d := ScaledOf(f, e, closer, x), if closer then 1 else 2, DenOf(e, x);
    ScaledParts(f, e, closer, x);
    ScaledEven(f, e, closer, x);
    SameOrder(v.r - v.l, v.s, k, NumOf(LowerBoundary(f, closer), e, x), d, Pow(10, j), m);
    SameOrder(v.r + v.u, v.s, k, NumOf(UpperBoundary(f), e, x), d, Pow(10, j), m);
    LowerCompare(LowerBoundary(f, closer), e, x, j, 4 * m);
    LowerCompare(UpperBoundary(f), e, x, j, 4 * m);
  }

  lemma ScaledEven(f: nat, e: int, closer: bool, x: int)
    ensures ScaledOf(f, e, closer, x).even <==> f % 2 == 0
    ensures ScaledOf(f, e, closer, x).seen <==> TieSeen(e, x, Shift(closer))
  {
  }

  lemma BoundaryMeaning(f: nat, e: int, closer: bool, x: int, j: nat)
    requires 0 < f && ScaledOf(f, e, closer, x).Valid()
    ensures var v := ScaledOf(f, e, closer, x);
      ((v.r - v.l) * Pow(10, j)) % v.s == 0 <==> BoundaryIsDecimal(f, e, closer, x - j)
  {
    hide NumOf, DenOf, Pow, LowerBoundary, ScaledOf, RoundsTo;
    var v := ScaledOf(f, e, closer, x);
    var b, c, d := (v.r - v.l) * Pow(10, j), NumOf(LowerBoundary(f, closer), e, x - j), DenOf(e, x - j);
    forall m: int
      ensures m * v.s == b <==> m * (4 * d) == c
    {
      IntervalMeaning(f, e, closer, x, j, m);
      MulAssoc(m, 4, d);
    }
    SameDivisibility(b, v.s, c, 4 * d);
  }

  lemma SameDivisibility(b: int, s: nat, c: int, d: nat)
    requires 0 < s && 0 < d && forall m: int :: m * s == b <==> m * d == c
    ensures b % s == 0 <==> c % d == 0
  {
    DivModFact(b, s);
    DivModFact(c, d);
    if b % s == 0 {
      assert (b / s) * s == b;
      DivModUnique(c, d, b / s, 0);
    }
    if c % d == 0 {
      assert (c / d) * d == c;
      DivModUnique(b, s, c / d, 0);
    }
  }

  // What n digits of the specification mean for f * 2^e: they round to it, and
  // so do fewer digits exactly if the lower boundary has fewer, belongs to the
  // interval, and is not noticed.
  lemma ShortestMeaning(f: nat, e: int, closer: bool, x: int, n: nat)
    requires 0 < f && 0 < n && ScaledOf(f, e, closer, x).Valid()
    requires ScaledOf(f, e, closer, x).Stop(n - 1) && forall j :: 0 <= j < n - 1 ==> !ScaledOf(f, e, closer, x).Stop(j)
    ensures RoundsTo(f, e, closer, x - (n - 1), ScaledOf(f, e, closer, x).Result(n - 1))
    ensures ShorterRoundsTo(f, e, closer, x - (n - 1), x)
      <==> f % 2 == 0 && !TieSeen(e, x, Shift(closer)) && 1 < n && BoundaryIsDecimal(f, e, closer, x - (n - 2))
  {
    hide RoundsTo, BoundaryIsDecimal, NumOf, DenOf, TieSeen, Pow, Scaled.Stop, Scaled.Result, Scaled.Within, ScaledOf;
    var v := ScaledOf(f, e, closer, x);
    ScaledEven(f, e, closer, x);
    ShortestInInterval(v, n);
    IntervalMeaning(f, e, closer, x, n - 1, v.Result(n - 1));
    if 1 < n { BoundaryMeaning(f, e, closer, x, n - 2); }
    ShorterMeaning(f, e, closer, x, n);
  }

  lemma ShorterMeaning(f: nat, e: int, closer: bool, x: int, n: nat)
    requires 0 < f && 0 < n && ScaledOf(f, e, closer, x).Valid()
    ensures ShorterRoundsTo(f, e, closer, x - (n - 1), x)
      <==> exists i, m :: 0 <= i < n - 1 && ScaledOf(f, e, closer, x).Within(i, m)
  {
    hide RoundsTo, Scaled.Within, ScaledOf;
    var v := ScaledOf(f, e, closer, x);
    if x', m :| x - (n - 1) < x' <= x && RoundsTo(f, e, closer, x', m) {
      IntervalMeaning(f, e, closer, x, x - x', m);
      assert v.Within(x - x', m);
    }
    if i, m :| 0 <= i < n - 1 && v.Within(i, m) {
      IntervalMeaning(f, e, closer, x, i, m);
      assert RoundsTo(f, e, closer, x - i, m);
    }
  }

  // A number with fewer digits, the last of which stands for a power of ten
  // above 10^low and up to 10^high, rounds to f * 2^e.
  ghost predicate ShorterRoundsTo(f: nat, e: int, closer: bool, low: int, high: int)
    requires 0 < f
  {
    exists x, m :: low < x <= high && RoundsTo(f, e, closer, x, m)
  }

  // Rounds the value correctly to the requested number of digits, or, for a
  // negative number of digits, prints a decimal that rounds to the value: the
  // shortest one, unless it is a boundary that is not noticed.
  method FormatDragon(f: nat, e: int, isPredecessorCloser: bool, numDigits: int, exp10: int)
      returns (buf: seq<char>, exp10': int)
    requires 0 < f < 0x4000_0000_0000_0000
    requires -0x4000_0000 < exp10 < 0x4000_0000
    requires NumOf(f, e, exp10) < 10 * DenOf(e, exp10)
    ensures numDigits >= 0 ==>
      && |buf| == (if numDigits == 0 then 1 else numDigits) && AllDigits(buf) && DigitsVal(buf) >= 0
      && IsNearestEven(NumOf(f, e, exp10'), DenOf(e, exp10'), DigitsVal(buf))
      && (exp10' == exp10 - numDigits + 1
          || (exp10' == exp10 - numDigits + 2 && numDigits > 0
              && IsNearestEven(NumOf(f, e, exp10' - 1), DenOf(e, exp10' - 1), Pow(10, numDigits))))
    ensures numDigits < 0 ==> var v := ScaledOf(f, e, isPredecessorCloser, exp10);
      && |buf| > 0 && exp10' == exp10 - (|buf| - 1) && v.Valid()
      && v.Stop(|buf| - 1) && (forall j :: 0 <= j < |buf| - 1 ==> !v.Stop(j))
      && DigitsVal(buf) == v.Result(|buf| - 1)
      && (AllDigits(buf) <==> !(|buf| == 1 && FirstDigitOverflows(v)))
    ensures numDigits < 0 ==>
      && RoundsTo(f, e, isPredecessorCloser, exp10', DigitsVal(buf))
      && (ShorterRoundsTo(f, e, isPredecessorCloser, exp10', exp10)
          <==> f % 2 == 0 && !TieSeen(e, exp10, Shift(isPredecessorCloser)) && 1 < |buf|
               && BoundaryIsDecimal(f, e, isPredecessorCloser, exp10' + 1))
  {
    hide RoundsTo, ShorterRoundsTo, BoundaryIsDecimal, TieSeen;
    hide NumOf, DenOf, Represents, Ready, Generating, DigitsVal, IsNearestEven, Pow, FirstDigitOverflows;
    hide Scaled.Stop, Scaled.Result, Scaled.Valid, NeverEqual, TieSafe, Bigits.Value;
    if e >= 0 { ExponentSign(f, e, exp10); }
    ScaledIsValid(f, e, isPredecessorCloser, exp10);
    var numerator, denominator, lower, upper := Scale(f, e, isPredecessorCloser, exp10);
    ghost var v := ScaledOf(f, e, isPredecessorCloser, exp10);
    if numDigits < 0 {
      StartGenerating(f, e, isPredecessorCloser, exp10, numerator, denominator, lower, upper);
      buf := ShortestDigits(numerator, denominator, lower, upper, f % 2 == 0, v);
      exp10' := exp10 - (|buf| - 1);
      ShortestMeaning(f, e, isPredecessorCloser, exp10, |buf|);
      return;
    }
    StartReady(f, e, Shift(isPredecessorCloser), exp10, numerator, denominator, lower, upper);
    exp10' := exp10 - (numDigits - 1);
    if numDigits == 0 {
      buf := NoDigitsAsked(f, e, exp10, Shift(isPredecessorCloser), numerator, denominator);
      return;
    }
    var overflow;
    buf, overflow := FixedDigits(numerator, denominator, numDigits);
    FixedMeaning(f, e, exp10, 2 * Shift(isPredecessorCloser), numDigits,
                 if overflow then 10 * DigitsVal(buf) else DigitsVal(buf));
    if overflow {
      CoarserExponent(f, e, exp10', DigitsVal(buf));
      TenthPower(numDigits - 1);
      exp10' := exp10' + 1;
    }
  }

  // No digit is asked for: one digit, a position further up.
  method NoDigitsAsked(f: nat, e: int, exp10: int, shift: nat, numerator: Bigint, denominator: Bigint)
      returns (buf: seq<char>)
    requires 0 < shift && numerator != denominator && Ready(numerator, denominator)
    requires numerator.Value() == 2 * shift * NumOf(f, e, exp10)
    requires denominator.Value() == 2 * shift * DenOf(e, exp10)
    requires numerator.Value() < 10 * denominator.Value()
    modifies denominator`bigits
    ensures |buf| == 1 && AllDigits(buf) && DigitsVal(buf) >= 0
    ensures IsNearestEven(NumOf(f, e, exp10 + 1), DenOf(e, exp10 + 1), DigitsVal(buf))
  {
    hide NumOf, DenOf, IsNearestEven, Bigits.Value, NeverEqual, TieSafe, Pow;
    ghost var r, s := numerator.Value(), denominator.Value();
    BoundedByDenominator(numerator, denominator);
    denominator.Multiply32(10);
    NonZeroIsNormal(denominator);
    NoDigitsMeaning(f, e, exp10, shift, r, s);
    var order := AddCompare(numerator, numerator, denominator);
    buf := if order > 0 then "1" else "0";
    ZeroOrOne(buf);
  }

  lemma ZeroOrOne(buf: seq<char>)
    requires buf == "0" || buf == "1"
    ensures AllDigits(buf) && DigitsVal(buf) == if buf == "1" then 1 else 0
  {
    DigitsPush("", buf[0]);
    assert "" + [buf[0]] == buf;
  }

  lemma NoDigitsMeaning(f: nat, e: int, x: int, shift: nat, r: nat, s: nat)
    requires 0 < shift && r == 2 * shift * NumOf(f, e, x) && s == 2 * shift * DenOf(e, x) && r < 10 * s
    ensures IsNearestEven(NumOf(f, e, x + 1), DenOf(e, x + 1), if 2 * r > 10 * s then 1 else 0)
  {
    hide NumOf, DenOf, IsNearestEven;
    var q := if 2 * r > 10 * s then 1 else 0;
    RoundFromRemainder(r, 10 * s, 0, r);
    LowerExponent(f, e, x + 1, 1);
    assert Pow(10, 1) == 10;
    var num, den := NumOf(f, e, x), DenOf(e, x);
    var num', den' := NumOf(f, e, x + 1), DenOf(e, x + 1);
    var k := 2 * shift;
    assert r * den' == num' * (10 * s) by {
      MulAssoc(k, num, den');
      MulAssoc(num', 10, den);
      MulAssoc(num', k, 10 * den);
      MulAssoc(k, num', 10 * den);
      MulAssoc(10, k, den);
      MulAssoc(k, 10, den);
    }
    NearestEvenRatio(r, 10 * s, num', den', q);
  }

  lemma StartReady(f: nat, e: int, shift: nat, exp10: int,
                   numerator: Bigint, denominator: Bigint, lower: Bigint, upper: Bigint)
    requires 0 < f && 0 < shift && TieSafe(numerator, denominator)
    requires Represents(f, e, exp10, shift, numerator, denominator, lower, upper)
    requires NumOf(f, e, exp10) < 10 * DenOf(e, exp10)
    ensures Ready(numerator, denominator)
    ensures numerator.Value() == 2 * shift * NumOf(f, e, exp10)
    ensures denominator.Value() == 2 * shift * DenOf(e, exp10)
    ensures 0 < numerator.Value() < 10 * denominator.Value()
  {
    hide DenOf, TieSafe, Bigits.Value;
    MulLe(1, f, Ulp(e, exp10));
    var num, den, k := NumOf(f, e, exp10), DenOf(e, exp10), 2 * shift;
    MulLt(num, 10 * den, k);
    MulLe(1, num, k);
    MulLe(1, den, k);
    MulAssoc(k, 10, den);
    NonZeroIsNormal(denominator);
  }

  lemma StartGenerating(f: nat, e: int, closer: bool, exp10: int,
                        numerator: Bigint, denominator: Bigint, lower: Bigint, upper: Bigint)
    requires 0 < f && TieSafe(numerator, denominator)
    requires numerator != denominator && lower != numerator && lower != denominator
    requires upper != numerator && upper != denominator && (upper == lower <==> !closer)
    requires Represents(f, e, exp10, Shift(closer), numerator, denominator, lower, upper)
    requires NumOf(f, e, exp10) < 10 * DenOf(e, exp10)
    ensures Generating(numerator, denominator, lower, upper, ScaledOf(f, e, closer, exp10), [])
  {
    hide TieSafe, Bigits.Value, NumOf, DenOf, Ulp, Scaled.Valid;
    StartReady(f, e, Shift(closer), exp10, numerator, denominator, lower, upper);
    ScaledIsValid(f, e, closer, exp10);
    var v := ScaledOf(f, e, closer, exp10);
    StartProduced(v);
    TenthPower(0);
    NonZeroIsNormal(lower);
    NonZeroIsNormal(upper);
  }
}
