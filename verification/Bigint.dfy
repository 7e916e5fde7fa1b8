// Arbitrary-precision natural numbers as the float formatter uses them: a
// vector of 32-bit bigits with an implicit exponent in bigits.
module BigInteger {
  import opened Powers
  import opened Words
  import opened Bigits
  import opened Convolution
  import opened BigitColumns

  // The two-word accumulator that stands in for a 128-bit integer.
  class Accumulator {
    var lower: uint64
    var upper: uint64

    function Total(): nat
      reads this
    {
      lower + 0x1_0000_0000_0000_0000 * upper
    }

    constructor ()
      ensures Total() == 0
    {
      lower, upper := 0, 0;
    }

    // The carry out of the lower word is detected by wrap-around.
    method Add(n: uint64)
      requires Total() + n < 0x1_0000_0000_0000_0000 * 0x1_0000_0000_0000_0000
      modifies this
      ensures Total() == old(Total()) + n
    {
      lower := (lower + n) % 0x1_0000_0000_0000_0000;
      if lower < n { upper := (upper + 1) % 0x1_0000_0000_0000_0000; }
    }

    // Adds the products n[i] * n[k - i] for first <= i < last.
    method AddTerms(n: seq<bigit>, k: nat, first: nat, last: nat)
      requires first <= last <= |n| && last <= k + 1 && k - first < |n| < 0x4000_0000
      requires Total() <= |n| * 0x1_0000_0000
      modifies this
      ensures Total() == old(Total()) + Terms(n, n, k, first, last)
    {
      hide Terms;
      var i, j := first, k - first;
      ghost var carry := Total();
      NoTerms(n, n, k, first);
      while i < last
        invariant first <= i <= last && i + j == k
        invariant Total() == carry + Terms(n, n, k, first, i)
      {
        BigitProduct(n[i], n[j]);
        TermsBound(n, n, k, first, i);
        AccumulatorRoom(carry, Terms(n, n, k, first, i), i - first, |n|);
        TermsStep(n, n, k, first, i);
        var product: uint64 := (n[i] as int) * n[j];
        Add(product);
        i, j := i + 1, j - 1;
      }
    }

    // Shifts right by one bigit.
    method ShiftBigit()
      modifies this
      ensures Total() == old(Total()) / 0x1_0000_0000
    {
      lower := (upper * 0x1_0000_0000) % 0x1_0000_0000_0000_0000 + lower / 0x1_0000_0000;
      upper := upper / 0x1_0000_0000;
    }

    function LowBigit(): (r: bigit)
      reads this
      ensures r == Total() % 0x1_0000_0000
    {
      lower % 0x1_0000_0000
    }
  }

  // The borrow leaving the aligned columns of a subtraction meets a zero bigit:
  // the borrow loop revisits that bigit instead of moving on.
  predicate BorrowStalls(s: seq<bigit>, t: seq<bigit>, shift: nat)
  {
    && shift + |t| < |s|
    && s[shift + |t|] == 0
    && Val(s[..shift + |t|]) < Val(t) * Weight(shift)
  }

  class Bigint {
    var bigits: seq<bigit>
    var exp: nat

    function Value(): (r: nat)
      reads this
    {
      Bigits.Value(bigits, exp)
    }

    function NumBigits(): (r: nat)
      reads this
    {
      |bigits| + exp
    }

    predicate Normal()
      reads this
    {
      |bigits| > 0 && bigits[|bigits| - 1] != 0
    }

    // Every public operation leaves a top-normalized number or a single zero.
    predicate Valid()
      reads this
    {
      Normal() || bigits == [0]
    }

    constructor ()
      ensures bigits == [] && exp == 0
    {
      bigits, exp := [], 0;
    }

    method AssignBigint(other: Bigint)
      modifies this
      ensures bigits == old(other.bigits) && exp == old(other.exp)
    {
      bigits := other.bigits;
      exp := other.exp;
    }

    method Assign(value: uint64)
      modifies this
      ensures Valid() && exp == 0 && Value() == value
      ensures |bigits| <= 2
    {
      var n: uint64 := value;
      var s: seq<bigit> := [];
      hide Val, Weight;
      FirstBigit(n);
      s := s + [n % 0x1_0000_0000];
      n := n / 0x1_0000_0000;
      while n != 0
        invariant 1 <= |s| <= 2 && Val(s) + n * Weight(|s|) == value
        invariant if |s| == 1 then n < 0x1_0000_0000 else n == 0 && s[1] != 0
        decreases n
      {
        AssignStep(s, n);
        s := s + [n % 0x1_0000_0000];
        n := n / 0x1_0000_0000;
      }
      bigits := s;
      exp := 0;
      WeightZero();
    }

    method SubtractBigits(index: nat, other: bigit, borrow: bigit) returns (borrow': bigit)
      requires index < |bigits| && borrow <= 1
      modifies this`bigits
      ensures borrow' <= 1
      ensures |bigits| == |old(bigits)|
      ensures bigits == old(bigits)[index := bigits[index]]
      ensures bigits[index] - 0x1_0000_0000 * borrow' == old(bigits[index]) - other - borrow
    {
      var result := (bigits[index] - other - borrow) % 0x1_0000_0000_0000_0000;
      bigits := bigits[index := result % 0x1_0000_0000];
      borrow' := result / 0x8000_0000_0000_0000;
    }

    method RemoveLeadingZeros()
      requires |bigits| > 0
      modifies this`bigits
      ensures Valid() || old(bigits) == []
      ensures Val(bigits) == old(Val(bigits)) && |bigits| <= |old(bigits)|
    {
      var numBigits := |bigits| - 1;
      assert bigits[..numBigits + 1] == bigits;
      while numBigits > 0 && bigits[numBigits] == 0
        invariant bigits == old(bigits)
        invariant 0 <= numBigits < |bigits|
        invariant Val(bigits[..numBigits + 1]) == Val(bigits)
      {
        ValTake(bigits, numBigits);
        numBigits := numBigits - 1;
      }
      bigits := bigits[..numBigits + 1];
    }

    // Subtracts in place. The result is exact unless the borrow stalls, and
    // then it is off by the stated amount.
    method SubtractAligned(other: Bigint)
      requires other != this
      requires Valid() && other.Normal()
      requires exp <= other.exp
      requires other.Value() <= Value()
      modifies this`bigits
      ensures Valid()
      ensures Value() == old(Value()) - other.Value()
                       + (if old(BorrowStalls(bigits, other.bigits, other.exp - exp))
                          then 0xFFFF_FFFF else 0) * Weight(other.NumBigits())
      ensures |bigits| <= |old(bigits)|
    {
      hide Val, Weight, Bigits.Value;
      ghost var before := bigits;
      var shift := other.exp - exp;
      AlignedFits(bigits, other.bigits, exp, other.exp);
      var borrow: bigit := 0;
      var i := shift;
      var j := 0;
      assert bigits[..i] == before[..i];
      EmptyVal(other.bigits[..j]);
      while j != |other.bigits|
        invariant 0 <= j <= |other.bigits| && i == shift + j && borrow <= 1
        invariant |bigits| == |before|
        invariant forall x :: i <= x < |before| ==> bigits[x] == before[x]
        invariant Val(bigits[..i]) - borrow * Weight(i) == Val(before[..i]) - Val(other.bigits[..j]) * Weight(shift)
        decreases |other.bigits| - j
      {
        ghost var s0, b0 := bigits, borrow;
        borrow := SubtractBigits(i, other.bigits[j], borrow);
        SubtractColumn(s0, bigits, before, other.bigits, j, shift, b0, borrow);
        i, j := i + 1, j + 1;
      }
      assert other.bigits[..j] == other.bigits;
      assert bigits[i..] == before[i..];
      ghost var aligned, b0 := bigits, borrow;
      BorrowFits(before, aligned, i, Val(other.bigits) * Weight(shift), b0);
      while borrow > 0
        invariant borrow <= 1 && (b0 == 1 ==> i < |aligned|) && (borrow == 1 ==> b0 == 1)
        invariant
          || (borrow == b0 && bigits == aligned)
          || (borrow == 1 && aligned[i] == 0 && bigits == aligned[i := 0xFFFF_FFFF])
          || (borrow == 0 && b0 == 1 && bigits == aligned[i := if aligned[i] > 0 then aligned[i] - 1 else 0xFFFF_FFFE])
        decreases borrow, if i < |bigits| && bigits[i] == 0 then 1 else 0
      {
        borrow := SubtractBigits(i, 0, borrow);
      }
      assert bigits == AfterBorrow(aligned, i, b0);
      SubtractTotal(before, aligned, i, Val(other.bigits) * Weight(shift), b0);
      RemoveLeadingZeros();
      SubtractScale(before, exp, other.bigits, other.exp, bigits,
                    if BorrowStalls(before, other.bigits, shift) then 0xFFFF_FFFF else 0);
    }

    method Multiply32(value: bigit)
      requires Valid() && value > 0
      modifies this`bigits
      ensures Valid() && Value() == old(Value()) * value
      ensures |old(bigits)| <= |bigits| <= |old(bigits)| + 1
    {
      hide Val, Weight, Bigits.Value;
      ghost var before := bigits;
      var carry: bigit := 0;
      var i, n := 0, |bigits|;
      EmptyVal(bigits[..i]);
      EmptyVal(before[..i]);
      while i < n
        invariant 0 <= i <= n == |bigits| == |before|
        invariant forall x :: i <= x < n ==> bigits[x] == before[x]
        invariant Val(bigits[..i]) + carry * Weight(i) == Val(before[..i]) * value
        invariant bigits == [0] || before != [0]
        invariant before == [0] ==> carry == 0
      {
        ghost var s0 := bigits;
        DigitTimesWord(bigits[i], value, carry);
        var result: uint64 := bigits[i] * value + carry;
        ghost var c0 := carry;
        bigits := bigits[i := result % 0x1_0000_0000];
        carry := result / 0x1_0000_0000;
        MultiplyColumn(s0, bigits, before, i, value, c0, carry);
        i := i + 1;
      }
      assert bigits[..n] == bigits && before[..n] == before;
      ValPush(bigits, carry);
      if carry != 0 { bigits := bigits + [carry]; }
      if before != [0] && |bigits| == n { ProductIsNormal(before, value, bigits); }
      ProductScale(before, value, bigits, exp);
    }

    method Multiply64(value: uint64)
      requires Valid() && value > 0
      modifies this`bigits
      ensures Valid() && Value() == old(Value()) * value
      ensures |old(bigits)| <= |bigits| <= |old(bigits)| + 2
    {
      hide Val, Weight, Bigits.Value;
      ghost var before := bigits;
      var lower := value % 0x1_0000_0000;
      var upper := value / 0x1_0000_0000;
      var carry: uint64 := 0;
      var i, n := 0, |bigits|;
      EmptyVal(bigits[..i]);
      EmptyVal(before[..i]);
      while i < n
        invariant 0 <= i <= n == |bigits| == |before|
        invariant forall x :: i <= x < n ==> bigits[x] == before[x]
        invariant Val(bigits[..i]) + carry * Weight(i) == Val(before[..i]) * value
        invariant bigits == [0] || before != [0]
        invariant before == [0] ==> carry == 0
      {
        ghost var s0 := bigits;
        DigitTimesDouble(bigits[i], value, carry);
        var result: uint64 := bigits[i] * lower + carry % 0x1_0000_0000;
        ghost var c0 := carry;
        carry := bigits[i] * upper + result / 0x1_0000_0000 + carry / 0x1_0000_0000;
        bigits := bigits[i := result % 0x1_0000_0000];
        MultiplyColumn(s0, bigits, before, i, value, c0, carry);
        i := i + 1;
      }
      assert bigits[..n] == bigits && before[..n] == before;
      ghost var product := Val(before) * value;
      while carry != 0
        invariant Val(bigits) + carry * Weight(|bigits|) == product
        invariant n <= |bigits| && (|bigits| == n || (|bigits| == n + 1 && carry < 0x1_0000_0000) || (|bigits| == n + 2 && carry == 0))
        invariant |bigits| > n && carry == 0 ==> bigits[|bigits| - 1] != 0
        invariant |bigits| == n ==> bigits == [0] || before != [0]
        invariant before == [0] ==> carry == 0 && |bigits| == n
        decreases carry
      {
        CarryOut(bigits, carry);
        bigits := bigits + [carry % 0x1_0000_0000];
        carry := carry / 0x1_0000_0000;
      }
      if before != [0] && |bigits| == n { ProductIsNormal(before, value, bigits); }
      ProductScale(before, value, bigits, exp);
    }

    method ShiftLeft(shift: nat)
      requires Valid()
      modifies this
      ensures Valid() && Value() == old(Value()) * Pow(2, shift)
      ensures exp == old(exp) + shift / 32
      ensures |old(bigits)| <= |bigits| <= |old(bigits)| + 1
    {
      hide Val, Weight, Bigits.Value, Pow;
      ghost var before := bigits;
      ghost var e0 := exp;
      exp := exp + shift / 32;
      var s := shift % 32;
      ShiftScale(before, e0, shift);
      PowZero(2);
      if s == 0 { return; }
      PowMonotone(2, 1, s);
      PowSplit32(s);
      var low, high := Pow(2, s), Pow(2, 32 - s);
      var carry: bigit := 0;
      var i, n := 0, |bigits|;
      EmptyVal(bigits[..i]);
      EmptyVal(before[..i]);
      while i < n
        invariant 0 <= i <= n == |bigits| == |before|
        invariant forall x :: i <= x < n ==> bigits[x] == before[x]
        invariant Val(bigits[..i]) + carry * Weight(i) == Val(before[..i]) * low
        invariant carry < low && exp == e0 + shift / 32
        invariant bigits == [0] || before != [0]
        invariant before == [0] ==> carry == 0
      {
        ghost var s0 := bigits;
        ShiftDigit(bigits[i], carry, low, high);
        var c := bigits[i] / high;
        ghost var c0 := carry;
        bigits := bigits[i := (bigits[i] * low) % 0x1_0000_0000 + carry];
        carry := c;
        MultiplyColumn(s0, bigits, before, i, low, c0, carry);
        i := i + 1;
      }
      assert bigits[..n] == bigits && before[..n] == before;
      ValPush(bigits, carry);
      if carry != 0 { bigits := bigits + [carry]; }
      if before != [0] && |bigits| == n { ProductIsNormal(before, low, bigits); }
      ProductScale(before, low, bigits, exp);
    }

    method Square()
      requires Valid() && |bigits| < 0x4000_0000
      modifies this
      ensures Valid() && Value() == old(Value()) * old(Value())
      ensures exp == 2 * old(exp)
      ensures |bigits| <= 2 * |old(bigits)|
    {
      hide Val, Bigits.Value, Terms, Column, Zeros, SquaredUpTo, Accumulator.Total;
      var n, numBigits := bigits, |bigits|;
      var numResultBigits := 2 * numBigits;
      bigits := Zeros(numResultBigits);
      var sum := new Accumulator();
      var k := 0;
      SquareStart(bigits, n);
      while k < numBigits
        invariant 0 <= k <= numBigits && exp == old(exp) && fresh(sum)
        invariant |bigits| == numResultBigits && SquaredUpTo(bigits, sum.Total(), n, k)
      {
        SquareColumn(bigits, sum.Total(), n, k);
        sum.AddTerms(n, k, 0, k + 1);
        StoreColumn(k, sum);
        k := k + 1;
      }
      // The same for the top half.
      while k < numResultBigits
        invariant numBigits <= k <= numResultBigits && exp == old(exp) && fresh(sum)
        invariant |bigits| == numResultBigits && SquaredUpTo(bigits, sum.Total(), n, k)
      {
        SquareColumn(bigits, sum.Total(), n, k);
        sum.AddTerms(n, k, k - numBigits + 1, numBigits);
        StoreColumn(k, sum);
        k := k + 1;
      }
      SquareDone(bigits, sum.Total(), n);
      RemoveLeadingZeros();
      SquareScale(n, bigits, exp);
      exp := exp * 2;
    }

    // Stores the low bigit of a column sum and keeps the rest as the carry.
    method StoreColumn(k: nat, sum: Accumulator)
      requires k < |bigits|
      modifies this`bigits, sum
      ensures bigits == old(bigits)[k := old(sum.Total()) % 0x1_0000_0000]
      ensures sum.Total() == old(sum.Total()) / 0x1_0000_0000
    {
      bigits := bigits[k := sum.LowBigit()];
      sum.ShiftBigit();
    }

    // Lowers the exponent to that of other by writing zeros out explicitly.
    method Align(other: Bigint)
      requires other != this && Valid()
      modifies this
      ensures exp == if old(exp) <= other.exp then old(exp) else other.exp
      ensures bigits == Zeros(old(exp) - exp) + old(bigits)
      ensures Value() == old(Value()) && NumBigits() == old(NumBigits())
    {
      hide Val, Weight, Bigits.Value, Zeros, Valid, Normal;
      var difference := exp - other.exp;
      if difference <= 0 {
        NoZeros(bigits);
        return;
      }
      ValuePad(bigits, Zeros(difference), exp - difference);
      MoveUp(difference);
      exp := exp - difference;
    }

    // Moves every bigit up by the given distance, in place and from the top,
    // and fills the freed positions with zeros.
    method MoveUp(distance: nat)
      requires distance > 0
      modifies this`bigits
      ensures bigits == Zeros(distance) + old(bigits)
    {
      hide Zeros;
      ghost var before := bigits;
      var numBigits := |bigits|;
      bigits := bigits + Zeros(distance);
      var i := numBigits - 1;
      var j := i + distance;
      while i >= 0
        invariant -1 <= i < numBigits && j == i + distance
        invariant |bigits| == numBigits + distance
        invariant forall x :: 0 <= x <= i ==> bigits[x] == before[x]
        invariant forall x :: i < x < numBigits ==> bigits[x + distance] == before[x]
      {
        bigits := bigits[j := bigits[i]];
        i, j := i - 1, j - 1;
      }
      bigits := Zeros(distance) + bigits[distance..];
    }

    // Leaves the remainder here and returns the quotient. The first comparison
    // overlooks an equal divisor with a smaller exponent; nothing else can go
    // wrong as long as the quotient fits into one bigit.
    method DivmodAssign(divisor: Bigint) returns (quotient: nat)
      requires divisor != this
      requires Valid() && divisor.Normal()
      requires NumBigits() <= divisor.NumBigits() + 1
      requires Value() == 0 ==> exp <= divisor.exp
      modifies this
      ensures Valid()
      ensures old(EqualButMissed(divisor)) ==> quotient == 0 && Value() == old(Value())
      ensures !old(EqualButMissed(divisor)) ==> Value() < divisor.Value()
      ensures old(Value()) == quotient * divisor.Value() + Value()
      ensures exp == if quotient == 0 || old(exp) <= divisor.exp then old(exp) else divisor.exp
    {
      hide Val, Weight, Bigits.Value, Zeros;
      ZeroValue(divisor.bigits, divisor.exp);
      ZeroValue(bigits, exp);
      var order := Compare(this, divisor);
      if order < 0 { return 0; }
      Align(divisor);
      quotient := SubtractRepeatedly(divisor);
    }

    // The loop of the division, for aligned operands.
    method SubtractRepeatedly(divisor: Bigint) returns (quotient: nat)
      requires divisor != this
      requires Valid() && divisor.Normal() && exp <= divisor.exp
      requires NumBigits() <= divisor.NumBigits() + 1
      requires divisor.Value() <= Value()
      modifies this`bigits
      ensures Valid() && Value() < divisor.Value()
      ensures quotient > 0 && old(Value()) == quotient * divisor.Value() + Value()
    {
      hide Val, Weight, Bigits.Value;
      ghost var total, d := Value(), divisor.Value();
      ZeroValue(divisor.bigits, divisor.exp);
      SubtractOnce(divisor);
      quotient := 1;
      assert quotient * d == d;
      ZeroValue(bigits, exp);
      var order := Compare(this, divisor);
      while order >= 0
        invariant Valid() && NumBigits() <= divisor.NumBigits() + 1
        invariant total == quotient * d + Value() && quotient > 0
        invariant order >= 0 <==> d <= Value()
        decreases Value()
      {
        SubtractOnce(divisor);
        DistributeRight(quotient, 1, d);
        quotient := quotient + 1;
        ZeroValue(bigits, exp);
        order := Compare(this, divisor);
      }
    }

    // A subtraction inside the division: the borrow never stalls.
    method SubtractOnce(divisor: Bigint)
      requires divisor != this
      requires Valid() && divisor.Normal() && exp <= divisor.exp
      requires NumBigits() <= divisor.NumBigits() + 1
      requires divisor.Value() <= Value()
      modifies this`bigits
      ensures Valid() && Value() == old(Value()) - divisor.Value()
      ensures NumBigits() <= old(NumBigits())
    {
      hide Val, Weight, Bigits.Value;
      ValueTop(divisor.bigits, divisor.exp);
      AlignedFits(bigits, divisor.bigits, exp, divisor.exp);
      SubtractAligned(divisor);
    }

    // The one comparison that division gets wrong.
    predicate EqualButMissed(divisor: Bigint)
      reads this, divisor
    {
      divisor.exp < exp && Value() == divisor.Value()
    }

    // Assigns 10^e, as 5^e by repeated squaring and then a shift.
    method AssignPow10(e: nat)
      requires e < 0x4000_0000
      modifies this
      ensures Normal() && Value() == Pow(10, e) && exp == e / 32
    {
      hide Val, Weight, Bigits.Value, Pow, BitsAbove, BitSet;
      NoMask(e);
      PowZero(10);
      PowZero(5);
      PowZero(2);
      if e == 0 {
        Assign(1);
        ZeroValue(bigits, exp);
        return;
      }
      var bitmask := 1;
      ghost var k := 0;
      while e >= bitmask
        invariant bitmask == Pow(2, k) && 0 < bitmask <= 2 * e
        decreases 2 * e - bitmask
      {
        PowStep(2, k);
        bitmask := bitmask * 2;
        k := k + 1;
      }
      HalfMask(bitmask, k);
      bitmask := bitmask / 2;
      k := k - 1;
      Assign(5);
      HalfMask(bitmask, k);
      FirstMask(e, bitmask);
      ghost var q: nat := 1;
      bitmask := bitmask / 2;
      while bitmask != 0
        invariant Valid() && exp == 0 && Value() == Pow(5, q)
        invariant 0 <= bitmask && q == BitsAbove(e, bitmask)
        invariant bitmask > 0 ==> k > 0 && bitmask == Pow(2, k - 1) && q < e
        decreases bitmask
      {
        ZeroValue(bigits, exp);
        FivesAreShort(bigits, q);
        Square();
        PowAdd(5, q, q);
        k := k - 1;
        HalfMask(bitmask, k);
        NextBit(e, bitmask);
        if BitSet(e, bitmask) {
          PowStep(5, 2 * q);
          Multiply32(5);
        }
        bitmask := bitmask / 2;
        q := BitsAbove(e, bitmask);
      }
      ShiftLeft(e);
      PowTen(e);
      ZeroValue(bigits, exp);
    }
  }

  // ----- Comparison ---------------------------------------------------------

  // n is top-normalized, or at least does not reach above other.
  predicate Bounded(n: Bigint, other: Bigint)
    reads n, other
  {
    |n.bigits| > 0 && (n.Normal() || n.NumBigits() <= other.NumBigits())
  }

  // Exact on different numbers. On equal numbers the lengths decide, which is
  // right only if the exponents agree.
  method Compare(lhs: Bigint, rhs: Bigint) returns (r: int)
    requires Bounded(lhs, rhs) && Bounded(rhs, lhs)
    ensures lhs.Value() != rhs.Value() ==> r == Sign(lhs.Value() - rhs.Value())
    ensures lhs.Value() == rhs.Value() ==> r == Sign(|lhs.bigits| - |rhs.bigits|)
    ensures lhs.Value() == rhs.Value() ==> lhs.NumBigits() == rhs.NumBigits()
  {
    hide Val, Weight, Bigits.Value, Below;
    ValueBound(lhs.bigits, lhs.exp);
    ValueBound(rhs.bigits, rhs.exp);
    if lhs.NumBigits() != rhs.NumBigits() {
      if lhs.NumBigits() > rhs.NumBigits() {
        ValueTop(lhs.bigits, lhs.exp);
        WeightMonotone(rhs.NumBigits(), lhs.NumBigits() - 1);
        return 1;
      } else {
        ValueTop(rhs.bigits, rhs.exp);
        WeightMonotone(lhs.NumBigits(), rhs.NumBigits() - 1);
        return -1;
      }
    }
    var i, j := |lhs.bigits| - 1, |rhs.bigits| - 1;
    var end := i - j;
    if end < 0 { end := 0; }
    ghost var n := lhs.NumBigits();
    BelowAll(lhs.bigits, lhs.exp, n);
    BelowAll(rhs.bigits, rhs.exp, n);
    while i >= end
      invariant end - 1 <= i < |lhs.bigits| && -1 <= j && i + lhs.exp == j + rhs.exp
      invariant lhs.Value() - rhs.Value()
             == Below(lhs.bigits, lhs.exp, i + lhs.exp + 1) - Below(rhs.bigits, rhs.exp, i + lhs.exp + 1)
    {
      var l, r := lhs.bigits[i], rhs.bigits[j];
      if l != r {
        if l > r {
          DigitDecides(lhs.bigits, lhs.exp, rhs.bigits, rhs.exp, i + lhs.exp);
          return 1;
        } else {
          DigitDecides(rhs.bigits, rhs.exp, lhs.bigits, lhs.exp, i + lhs.exp);
          return -1;
        }
      }
      DigitTies(lhs.bigits, lhs.exp, rhs.bigits, rhs.exp, i + lhs.exp);
      i, j := i - 1, j - 1;
    }
    if j == -1 { BelowExp(rhs.bigits, rhs.exp, rhs.exp); }
    if i == -1 { BelowExp(lhs.bigits, lhs.exp, lhs.exp); }
    if i != j { return if i > j then 1 else -1; }
    return 0;
  }

  // The sign of lhs1 + lhs2 - rhs, without forming the sum.
  method AddCompare(lhs1: Bigint, lhs2: Bigint, rhs: Bigint) returns (r: int)
    requires rhs.Normal() && Bounded(lhs1, rhs) && Bounded(lhs2, rhs)
    ensures r == Sign(lhs1.Value() + lhs2.Value() - rhs.Value())
  {
    hide Val, Weight, Bigits.Value, Below;
    var maxLhsBigits := if lhs1.NumBigits() < lhs2.NumBigits() then lhs2.NumBigits() else lhs1.NumBigits();
    var numRhsBigits := rhs.NumBigits();
    if maxLhsBigits + 1 < numRhsBigits {
      SumBelow(lhs1.bigits, lhs1.exp, lhs2.bigits, lhs2.exp, maxLhsBigits);
      ValueTop(rhs.bigits, rhs.exp);
      WeightMonotone(maxLhsBigits + 1, numRhsBigits - 1);
      return -1;
    }
    if maxLhsBigits > numRhsBigits {
      var top := if lhs1.NumBigits() < lhs2.NumBigits() then lhs2 else lhs1;
      ValueTop(top.bigits, top.exp);
      ValueBound(rhs.bigits, rhs.exp);
      WeightMonotone(numRhsBigits, maxLhsBigits - 1);
      return 1;
    }
    var borrow := 0;
    var minExp := if lhs1.exp < lhs2.exp then lhs1.exp else lhs2.exp;
    minExp := if rhs.exp < minExp then rhs.exp else minExp;
    var i := numRhsBigits - 1;
    ghost var difference := lhs1.Value() + lhs2.Value() - rhs.Value();
    BelowAll(lhs1.bigits, lhs1.exp, numRhsBigits);
    BelowAll(lhs2.bigits, lhs2.exp, numRhsBigits);
    BelowAll(rhs.bigits, rhs.exp, numRhsBigits);
    while i >= minExp
      invariant minExp - 1 <= i
      invariant borrow == 0 || borrow == 0x1_0000_0000
      invariant difference == Below(lhs1.bigits, lhs1.exp, i + 1) + Below(lhs2.bigits, lhs2.exp, i + 1)
                            - Below(rhs.bigits, rhs.exp, i + 1) - (if borrow == 0 then 0 else Weight(i + 1))
    {
      var sum := BigitAt(lhs1.bigits, lhs1.exp, i) + BigitAt(lhs2.bigits, lhs2.exp, i);
      var rhsBigit := BigitAt(rhs.bigits, rhs.exp, i);
      ScanColumn(lhs1.bigits, lhs1.exp, lhs2.bigits, lhs2.exp, rhs.bigits, rhs.exp, i, borrow, difference);
      if sum > rhsBigit + borrow { return 1; }
      borrow := rhsBigit + borrow - sum;
      if borrow > 1 { return -1; }
      borrow := borrow * 0x1_0000_0000;
      i := i - 1;
    }
    BelowExp(lhs1.bigits, lhs1.exp, minExp);
    BelowExp(lhs2.bigits, lhs2.exp, minExp);
    BelowExp(rhs.bigits, rhs.exp, minExp);
    return if borrow != 0 then -1 else 0;
  }

  // ----- Where the shortcuts are exact --------------------------------------

  // A non-zero lowest bigit rules out an equal number with a larger exponent,
  // so that the comparison with it is exact.
  lemma LowestBigitDecides(s: seq<bigit>, exp: nat, t: seq<bigit>, texp: nat)
    requires |s| > 0 && s[0] != 0 && exp < texp
    ensures Bigits.Value(s, exp) != Bigits.Value(t, texp)
  {
    hide Val, Weight;
    var d := texp - exp;
    ValSplit(s, 1);
    SingleBigit(s);
    WeightAdd(d, exp);
    WeightAdd(d - 1, 1);
    MulAssoc(Val(t), Weight(d), Weight(exp));
    MulAssoc(Val(t), Weight(d - 1), Weight(1));
    NotMultiple(s[0], Val(s[1..]), Val(t) * Weight(d - 1));
    if Bigits.Value(s, exp) == Bigits.Value(t, texp) {
      MulCancel(Val(s), Val(t) * Weight(d), Weight(exp));
    }
  }

  lemma NotMultiple(low: bigit, high: nat, other: nat)
    requires low != 0
    ensures low + high * 0x1_0000_0000 != other * 0x1_0000_0000
  {
  }

  lemma SingleBigit(s: seq<bigit>)
    requires |s| > 0
    ensures Val(s[..1]) == s[0] && Weight(1) == 0x1_0000_0000
  {
    assert Weight(0) == 1;
    assert s[..1][..0] == [];
  }

  // Two equal numbers that the comparison takes for different ones.
  lemma EqualNumbersOfDifferentLength()
    ensures Bigits.Value([0, 1], 0) == Bigits.Value([1], 1)
    ensures Sign(|[0, 1]| - |[1]|) == 1
  {
    var s: seq<bigit> := [0, 1];
    var t: seq<bigit> := [1];
    SingleBigit(s);
    SingleBigit(t);
    assert t[..1] == t;
    ValTake(s, 1);
    assert s[..2] == s;
    assert Weight(0) == 1;
  }

  // The borrow cannot stall when the minuend reaches at most one bigit higher.
  lemma BorrowSettles(s: seq<bigit>, t: seq<bigit>, shift: nat)
    requires |s| > 0 && s[|s| - 1] != 0 && |s| <= shift + |t| + 1
    ensures !BorrowStalls(s, t, shift)
  {
  }

  // 2^64 - 1 is computed wrongly: the borrow stalls at the middle bigit.
  lemma BorrowStallsOnce()
    ensures BorrowStalls([0, 0, 1], [1], 0)
  {
    var s: seq<bigit>, t: seq<bigit> := [0, 0, 1], [1];
    SingleBigit(s);
    SingleBigit(t);
    assert t[..1] == t;
    assert Weight(0) == 1;
  }
}
