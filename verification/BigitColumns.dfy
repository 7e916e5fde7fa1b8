// One column of each bigit loop: what a single iteration does to the numbers
// built so far. The loops of BigInteger call these and nothing else.
module BigitColumns {
  import opened Powers
  import opened Bigits
  import opened Convolution

  // ----- multiplication by a word -------------------------------------------

  lemma DigitTimesWord(b: bigit, w: bigit, c: bigit)
    ensures 0 <= b * w <= 0xFFFF_FFFE_0000_0001
    ensures 0 <= b * w + c <= 0xFFFF_FFFF_0000_0000
  {
    MulLe(b, 0xFFFF_FFFF, w);
  }

  // One bigit times a two-word multiplier: nothing overflows 64 bits.
  lemma DigitTimesDouble(b: bigit, value: nat, carry: nat)
    requires value < 0x1_0000_0000_0000_0000 && carry < 0x1_0000_0000_0000_0000
    ensures var lower, upper := value % 0x1_0000_0000, value / 0x1_0000_0000;
      var result := b * lower + carry % 0x1_0000_0000;
      var carry' := b * upper + result / 0x1_0000_0000 + carry / 0x1_0000_0000;
      && 0 <= result < 0x1_0000_0000_0000_0000
      && 0 <= carry' < 0x1_0000_0000_0000_0000
      && b * value + carry == result % 0x1_0000_0000 + 0x1_0000_0000 * carry'
      && (b == 0 && carry == 0 ==> carry' == 0 && result == 0)
  {
    var lower, upper := value % 0x1_0000_0000, value / 0x1_0000_0000;
    var low, high := b * lower, b * upper;
    DigitTimesWord(b, lower, carry % 0x1_0000_0000);
    DigitTimesWord(b, upper, 0xFFFF_FFFF);
    assert b * value == low + 0x1_0000_0000 * high by { SplitFactor(b, value); }
    WideCarry(low, high, carry);
  }

  lemma SplitFactor(b: int, value: nat)
    ensures b * value == b * (value % 0x1_0000_0000) + 0x1_0000_0000 * (b * (value / 0x1_0000_0000))
  {
    var lower, upper := value % 0x1_0000_0000, value / 0x1_0000_0000;
    DistributeRight(lower, 0x1_0000_0000 * upper, b);
    MulAssoc(0x1_0000_0000, upper, b);
  }

  lemma WideCarry(low: nat, high: nat, carry: nat)
    requires low <= 0xFFFF_FFFE_0000_0001 && high <= 0xFFFF_FFFE_0000_0001 && carry < 0x1_0000_0000_0000_0000
    ensures var result := low + carry % 0x1_0000_0000;
      var carry' := high + result / 0x1_0000_0000 + carry / 0x1_0000_0000;
      && result < 0x1_0000_0000_0000_0000
      && carry' < 0x1_0000_0000_0000_0000
      && low + 0x1_0000_0000 * high + carry == result % 0x1_0000_0000 + 0x1_0000_0000 * carry'
  {
  }

  lemma MultiplyColumn(s0: seq<bigit>, s1: seq<bigit>, before: seq<bigit>, i: nat, value: nat, c0: nat, c1: nat)
    requires i < |s0| == |before| == |s1| && s1 == s0[i := s1[i]]
    requires before[i] * value + c0 == s1[i] + 0x1_0000_0000 * c1
    requires Val(s0[..i]) + c0 * Weight(i) == Val(before[..i]) * value
    ensures Val(s1[..i + 1]) + c1 * Weight(i + 1) == Val(before[..i + 1]) * value
  {
    assert s1[..i] == s0[..i];
    ValTake(s1, i);
    ValTake(before, i);
    MultiplyAlgebra(Val(before[..i]), before[i], value, s1[i], c0, c1, Weight(i));
  }

  lemma MultiplyAlgebra(o: int, b: int, value: int, d: int, c0: int, c1: int, w: int)
    requires b * value + c0 == d + 0x1_0000_0000 * c1
    ensures (o * value - c0 * w) + d * w + c1 * (0x1_0000_0000 * w) == (o + b * w) * value
  {
    var cB := 0x1_0000_0000 * c1;
    calc {
      (o * value - c0 * w) + d * w + c1 * (0x1_0000_0000 * w);
      { MulAssoc(c1, 0x1_0000_0000, w); }
      o * value - c0 * w + (d * w + cB * w);
      { DistributeRight(d, cB, w); }
      o * value - c0 * w + (b * value + c0) * w;
      { DistributeRight(b * value, c0, w); }
      o * value + (b * value) * w;
      { MulAssoc(b, value, w); MulAssoc(b, w, value); }
      o * value + (b * w) * value;
      { DistributeRight(o, b * w, value); }
      (o + b * w) * value;
    }
  }

  lemma ProductIsNormal(before: seq<bigit>, value: nat, after: seq<bigit>)
    requires |before| > 0 && before[|before| - 1] != 0 && value > 0
    requires Val(after) == Val(before) * value
    requires |after| == |before|
    ensures after[|after| - 1] != 0
  {
    ValTop(before);
    MulLe(1, value, Val(before));
    TopFromVal(after);
  }

  lemma ProductScale(before: seq<bigit>, value: nat, after: seq<bigit>, exp: nat)
    requires Val(after) == Val(before) * value
    ensures Value(after, exp) == Value(before, exp) * value
  {
    MulAssoc(Val(before), value, Weight(exp));
    MulAssoc(Val(before), Weight(exp), value);
  }

  lemma CarryOut(s: seq<bigit>, carry: nat)
    ensures Val(s + [carry % 0x1_0000_0000]) + (carry / 0x1_0000_0000) * Weight(|s| + 1)
         == Val(s) + carry * Weight(|s|)
  {
    ValPush(s, carry % 0x1_0000_0000);
    SplitWord(carry, Weight(|s|));
  }

  lemma SplitWord(t: nat, w: nat)
    ensures (t % 0x1_0000_0000) * w + (t / 0x1_0000_0000) * (0x1_0000_0000 * w) == t * w
  {
    var q, r := t / 0x1_0000_0000, t % 0x1_0000_0000;
    MulAssoc(q, 0x1_0000_0000, w);
    DistributeRight(r, q * 0x1_0000_0000, w);
  }

  // ----- shifting -----------------------------------------------------------

  lemma PowSplit32(s: nat)
    requires s < 32
    ensures Pow(2, s) * Pow(2, 32 - s) == 0x1_0000_0000
    ensures Pow(2, s) <= 0x8000_0000
  {
    PowAdd(2, s, 32 - s);
    PowerTwo32();
    PowMonotone(2, s, 31);
    assert Pow(2, 32) == 2 * Pow(2, 31);
  }

  lemma ShiftDigit(b: bigit, carry: nat, low: nat, high: nat)
    requires 0 < low && 0 < high && low * high == 0x1_0000_0000
    requires carry < low
    ensures (b * low) % 0x1_0000_0000 + carry < 0x1_0000_0000
    ensures b * low + carry == (b * low) % 0x1_0000_0000 + carry + 0x1_0000_0000 * (b / high)
    ensures 0 <= b / high < low
  {
    var q, r := b / high, b % high;
    DivModFact(b, high);
    calc {
      b * low;
      (q * high + r) * low;
      { DistributeRight(q * high, r, low); MulAssoc(q, high, low); }
      q * 0x1_0000_0000 + r * low;
    }
    MulLe(r, high - 1, low);
    DistributeRight(high, 1, low);
    MulPositive(r, low);
    DivModUnique(b * low, 0x1_0000_0000, q, r * low);
    if low <= q {
      MulLe(low, q, high);
      assert false;
    }
  }

  lemma ShiftScale(s: seq<bigit>, exp: nat, shift: nat)
    ensures Value(s, exp + shift / 32) * Pow(2, shift % 32) == Value(s, exp) * Pow(2, shift)
  {
    var q, r := shift / 32, shift % 32;
    PowAdd(2, 32 * q, r);
    WeightIsPow2(q);
    WeightAdd(exp, q);
    MulAssoc(Val(s), Weight(exp), Weight(q));
    MulAssoc(Value(s, exp), Weight(q), Pow(2, r));
  }

  // ----- squaring -----------------------------------------------------------

  lemma AccumulatorRoom(carry: nat, terms: nat, i: nat, m: nat)
    requires i < m < 0x4000_0000
    requires carry <= m * 0x1_0000_0000 && terms <= i * 0xFFFF_FFFE_0000_0001
    ensures carry + terms + 0xFFFF_FFFE_0000_0001 < 0x1_0000_0000_0000_0000 * 0x1_0000_0000_0000_0000
  {
  }

  // The first k bigits of the square and the carry account for k columns.
  predicate SquaredUpTo(s: seq<bigit>, carry: nat, n: seq<bigit>, k: nat)
  {
    && k <= |s| == 2 * |n|
    && Val(s[..k]) + carry * Weight(k) == Columns(n, n, k)
    && carry <= |n| * 0x1_0000_0000
  }

  lemma SquareStart(s: seq<bigit>, n: seq<bigit>)
    requires |s| == 2 * |n|
    ensures SquaredUpTo(s, 0, n, 0)
  {
    EmptyVal(s[..0]);
    ColumnsStart(n);
  }

  // The terms added for column k, in either half, and their effect.
  lemma SquareColumn(s: seq<bigit>, carry: nat, n: seq<bigit>, k: nat)
    requires k < |s| && SquaredUpTo(s, carry, n, k)
    ensures carry <= |n| * 0x1_0000_0000
    ensures var total := carry + Column(n, n, k);
      SquaredUpTo(s[k := total % 0x1_0000_0000], total / 0x1_0000_0000, n, k + 1)
    ensures k < |n| ==> Column(n, n, k) == Terms(n, n, k, 0, k + 1)
    ensures k >= |n| ==> Column(n, n, k) == Terms(n, n, k, k - |n| + 1, |n|)
  {
    hide Val, Weight, Terms, Columns;
    if k < |n| {
      TermsBound(n, n, k, 0, k + 1);
    } else {
      ColumnUpper(n, k);
      TermsBound(n, n, k, k - |n| + 1, |n|);
    }
    ColumnsStep(n, n, k);
    StoredColumn(s, k, carry, Column(n, n, k));
  }

  lemma StoredColumn(s: seq<bigit>, k: nat, carry: nat, column: nat)
    requires k < |s|
    ensures var s' := s[k := (carry + column) % 0x1_0000_0000];
      Val(s'[..k + 1]) + ((carry + column) / 0x1_0000_0000) * Weight(k + 1)
      == Val(s[..k]) + carry * Weight(k) + column * Weight(k)
  {
    var s' := s[k := (carry + column) % 0x1_0000_0000];
    assert s'[..k] == s[..k];
    ValTake(s', k);
    SplitWord(carry + column, Weight(k));
    DistributeRight(carry, column, Weight(k));
  }

  // The carry left after the last column is zero and the square is complete.
  lemma SquareDone(s: seq<bigit>, carry: nat, n: seq<bigit>)
    requires SquaredUpTo(s, carry, n, |s|)
    ensures carry == 0 && Val(s) == Val(n) * Val(n)
  {
    hide Val, Weight, Columns;
    assert s[..|s|] == s;
    ColumnsAreProduct(n, n, |s|);
    ValBound(n);
    var v, w := Val(n), Weight(|n|);
    WeightAdd(|n|, |n|);
    MulLe(v, w, v);
    MulLt(v, w, w);
    if carry > 0 { MulLe(1, carry, w * w); }
  }

  lemma SquareScale(before: seq<bigit>, after: seq<bigit>, exp: nat)
    requires Val(after) == Val(before) * Val(before)
    ensures Value(after, 2 * exp) == Value(before, exp) * Value(before, exp)
  {
    WeightAdd(exp, exp);
    var v, w := Val(before), Weight(exp);
    MulAssoc(v, v, w * w);
    MulAssoc(v, w, w);
    MulAssoc(v, w, v * w);
    MulAssoc(w, v, w);
  }

  lemma PowZero(b: nat)
    ensures Pow(b, 0) == 1 && Pow(b, 1) == b
  {
  }

  lemma PowStep(b: nat, n: nat)
    ensures Pow(b, n + 1) == b * Pow(b, n)
  {
  }

  lemma ZeroValue(s: seq<bigit>, exp: nat)
    requires |s| > 0
    ensures s == [0] ==> Value(s, exp) == 0
    ensures s[|s| - 1] != 0 ==> Value(s, exp) > 0
  {
    hide Weight;
    if s[|s| - 1] != 0 { ValueTop(s, exp); } else if s == [0] { ValOfZeros(s); }
  }

  lemma NoZeros(s: seq<bigit>)
    ensures Zeros(0) + s == s
  {
  }

  lemma EmptyVal(s: seq<bigit>)
    requires |s| == 0
    ensures Val(s) == 0
  {
  }

  // ----- subtraction --------------------------------------------------------

  lemma SubtractColumn(s0: seq<bigit>, s1: seq<bigit>, before: seq<bigit>, t: seq<bigit>,
                       j: nat, shift: nat, b0: nat, b1: nat)
    requires j < |t| && shift + j < |s0| == |before| == |s1| && s1 == s0[shift + j := s1[shift + j]]
    requires s1[shift + j] - 0x1_0000_0000 * b1 == before[shift + j] - t[j] - b0
    requires Val(s0[..shift + j]) - b0 * Weight(shift + j) == Val(before[..shift + j]) - Val(t[..j]) * Weight(shift)
    ensures Val(s1[..shift + j + 1]) - b1 * Weight(shift + j + 1)
         == Val(before[..shift + j + 1]) - Val(t[..j + 1]) * Weight(shift)
  {
    hide Val, Weight;
    var i := shift + j;
    assert s1[..i] == s0[..i];
    ValTake(s1, i);
    ValTake(before, i);
    ValTake(t, j);
    var w, p := Weight(i), Weight(shift);
    WeightAdd(shift, j);
    WeightStep(i);
    MulAssoc(t[j], Weight(j), p);
    DistributeRight(Val(t[..j]), t[j] * Weight(j), p);
    SubtractAlgebra(s1[i], before[i], t[j], b0, b1, w);
  }

  lemma SubtractAlgebra(d: int, o: int, t: int, b0: int, b1: int, w: int)
    requires d - 0x1_0000_0000 * b1 == o - t - b0
    ensures d * w - b1 * (0x1_0000_0000 * w) == o * w - t * w - b0 * w
  {
    MulAssoc(b1, 0x1_0000_0000, w);
    DistributeRight(d, b1 * 0x1_0000_0000, w);
    DistributeRight(o, t, w);
    DistributeRight(o - t, b0, w);
  }

  // A subtrahend that is not larger fits into the columns of the minuend.
  lemma AlignedFits(s: seq<bigit>, t: seq<bigit>, exp: nat, texp: nat)
    requires |t| > 0 && t[|t| - 1] != 0 && exp <= texp
    requires Value(t, texp) <= Value(s, exp)
    ensures texp - exp + |t| <= |s|
    ensures Val(t) * Weight(texp - exp) <= Val(s)
  {
    ValueTop(t, texp);
    ValueBound(s, exp);
    if exp + |s| < texp + |t| { WeightMonotone(exp + |s|, texp + |t| - 1); }
    var d := texp - exp;
    WeightAdd(d, exp);
    MulAssoc(Val(t), Weight(d), Weight(exp));
    if Val(s) < Val(t) * Weight(d) { MulLt(Val(s), Val(t) * Weight(d), Weight(exp)); }
  }

  lemma BorrowTerm(borrow: nat, w: nat)
    requires borrow <= 1
    ensures borrow * w == if borrow == 1 then w else 0
  {
  }

  // A borrow out of the top column would make the difference negative.
  lemma BorrowFits(before: seq<bigit>, aligned: seq<bigit>, i: nat, sub: nat, borrow: nat)
    requires i <= |before| == |aligned| && borrow <= 1
    requires Val(aligned[..i]) - borrow * Weight(i) == Val(before[..i]) - sub
    requires sub <= Val(before)
    ensures borrow == 1 ==> i < |aligned|
    ensures borrow == 1 <==> Val(before[..i]) < sub
  {
    BorrowTerm(borrow, Weight(i));
    ValBound(aligned[..i]);
    if i == |before| { assert before[..i] == before; }
  }

  function AfterBorrow(aligned: seq<bigit>, i: nat, borrow: nat): (s: seq<bigit>)
  {
    if borrow == 0 || |aligned| <= i then aligned
    else aligned[i := if aligned[i] > 0 then aligned[i] - 1 else 0xFFFF_FFFE]
  }

  lemma SubtractTotal(before: seq<bigit>, aligned: seq<bigit>, i: nat, sub: nat, borrow: nat)
    requires i <= |before| == |aligned| && borrow <= 1 && (borrow == 1 ==> i < |aligned|)
    requires Val(aligned[..i]) - borrow * Weight(i) == Val(before[..i]) - sub
    requires aligned[i..] == before[i..]
    ensures Val(AfterBorrow(aligned, i, borrow))
         == Val(before) - sub + (if borrow == 1 && before[i] == 0 then 0xFFFF_FFFF else 0) * Weight(i)
  {
    BorrowTerm(borrow, Weight(i));
    SplitAlike(before, aligned, i);
    if borrow == 1 {
      assert aligned[i] == before[i] by { assert aligned[i..][0] == before[i..][0]; }
      ApplyBorrow(aligned, i);
    }
  }

  lemma SplitAlike(s: seq<bigit>, t: seq<bigit>, i: nat)
    requires i <= |s| == |t| && s[i..] == t[i..]
    ensures Val(s) - Val(s[..i]) == Val(t) - Val(t[..i])
  {
    ValSplit(s, i);
    ValSplit(t, i);
  }

  lemma ApplyBorrow(s: seq<bigit>, i: nat)
    requires i < |s|
    ensures Val(AfterBorrow(s, i, 1))
         == Val(s) - Weight(i) + (if s[i] == 0 then 0xFFFF_FFFF else 0) * Weight(i)
  {
    hide Val, Weight;
    var x: bigit := if s[i] > 0 then s[i] - 1 else 0xFFFF_FFFE;
    assert AfterBorrow(s, i, 1) == s[i := x];
    ValUpdate(s, i, x);
    BorrowAlgebra(s[i], x, Weight(i));
  }

  lemma BorrowAlgebra(d: int, x: int, w: int)
    requires x == if d > 0 then d - 1 else 0xFFFF_FFFE
    requires d >= 0
    ensures (x - d) * w == (if d == 0 then 0xFFFF_FFFF else 0) * w - w
  {
    if d == 0 { assert (x - d) * w == 0xFFFF_FFFE * w; } else { assert (x - d) * w == -1 * w; }
  }

  lemma SubtractScale(before: seq<bigit>, exp: nat, t: seq<bigit>, texp: nat, after: seq<bigit>, extra: nat)
    requires exp <= texp
    requires Val(after) == Val(before) - Val(t) * Weight(texp - exp) + extra * Weight(texp - exp + |t|)
    ensures Value(after, exp) == Value(before, exp) - Value(t, texp) + extra * Weight(texp + |t|)
  {
    hide Val, Weight;
    var d := texp - exp;
    WeightAdd(d, exp);
    WeightAdd(d + |t|, exp);
    assert d + |t| + exp == texp + |t|;
    ScaleAlgebra(Val(after), Val(before), Val(t), Weight(d), extra, Weight(d + |t|), Weight(exp));
  }

  lemma ScaleAlgebra(after: int, before: int, sub: int, wd: int, extra: int, wt: int, w: int)
    requires after == before - sub * wd + extra * wt
    ensures after * w == before * w - sub * (wd * w) + extra * (wt * w)
  {
    DistributeRight(before, sub * wd, w);
    DistributeRight(before - sub * wd, extra * wt, w);
    MulAssoc(sub, wd, w);
    MulAssoc(extra, wt, w);
  }

  // ----- comparison ---------------------------------------------------------

  lemma BelowStep(s: seq<bigit>, exp: nat, pos: nat)
    ensures Below(s, exp, pos + 1) == Below(s, exp, pos) + BigitAt(s, exp, pos) * Weight(pos)
  {
  }

  // Equal bigits at a position leave the difference to the positions below.
  lemma DigitTies(s: seq<bigit>, exp: nat, t: seq<bigit>, texp: nat, pos: nat)
    requires BigitAt(s, exp, pos) == BigitAt(t, texp, pos)
    ensures Below(s, exp, pos + 1) - Below(t, texp, pos + 1) == Below(s, exp, pos) - Below(t, texp, pos)
  {
  }

  // The first differing position decides.
  lemma DigitDecides(s: seq<bigit>, exp: nat, t: seq<bigit>, texp: nat, pos: nat)
    requires BigitAt(s, exp, pos) > BigitAt(t, texp, pos)
    ensures Below(s, exp, pos + 1) > Below(t, texp, pos + 1)
  {
    BelowBound(t, texp, pos);
    var a: int, b: int := BigitAt(s, exp, pos), BigitAt(t, texp, pos);
    MulLe(b + 1, a, Weight(pos));
    assert (b + 1) * Weight(pos) == b * Weight(pos) + Weight(pos);
  }

  // Two numbers below position n add up to less than the bigit above it.
  lemma SumBelow(s: seq<bigit>, exp: nat, t: seq<bigit>, texp: nat, n: nat)
    requires exp + |s| <= n && texp + |t| <= n
    ensures Value(s, exp) + Value(t, texp) < Weight(n + 1)
  {
    ValueBound(s, exp);
    ValueBound(t, texp);
    WeightMonotone(exp + |s|, n);
    WeightMonotone(texp + |t|, n);
  }

  // One position of the scan that compares s + t with u from the top down.
  lemma ScanColumn(s: seq<bigit>, e: nat, t: seq<bigit>, f: nat, u: seq<bigit>, g: nat,
                   pos: nat, borrow: int, difference: int)
    requires borrow == 0 || borrow == 0x1_0000_0000
    requires difference == Below(s, e, pos + 1) + Below(t, f, pos + 1) - Below(u, g, pos + 1)
                         - (if borrow == 0 then 0 else Weight(pos + 1))
    ensures var rest := BigitAt(u, g, pos) + borrow - (BigitAt(s, e, pos) + BigitAt(t, f, pos));
      && (rest < 0 ==> difference > 0)
      && (rest > 1 ==> difference < 0)
      && (0 <= rest <= 1 ==>
            difference == Below(s, e, pos) + Below(t, f, pos) - Below(u, g, pos) - (if rest == 0 then 0 else Weight(pos)))
  {
    hide Below, Weight, BigitAt;
    var a: int, b: int, c: int := BigitAt(s, e, pos), BigitAt(t, f, pos), BigitAt(u, g, pos);
    var rest := c + borrow - (a + b);
    var w := Weight(pos);
    BelowBound(s, e, pos);
    BelowBound(t, f, pos);
    BelowBound(u, g, pos);
    BelowStep(s, e, pos);
    BelowStep(t, f, pos);
    BelowStep(u, g, pos);
    WeightStep(pos);
    ScanAlgebra(a, b, c, borrow, w);
    ScanSign(Below(s, e, pos), Below(t, f, pos), Below(u, g, pos), rest, w, difference);
  }

  // The rest decides, unless it is 0 or 1.
  lemma ScanSign(x: int, y: int, z: int, rest: int, w: int, difference: int)
    requires 0 <= x < w && 0 <= y < w && 0 <= z < w && difference == x + y - z - rest * w
    ensures (rest < 0 ==> difference > 0) && (rest > 1 ==> difference < 0)
    ensures 0 <= rest <= 1 ==> difference == x + y - z - (if rest == 0 then 0 else w)
  {
    if rest < 0 { MulLe(1, -rest, w); } else if rest > 1 { MulLe(2, rest, w); }
  }

  // Moving the lowest bigit of what is left over to the number.
  lemma AssignStep(s: seq<bigit>, n: nat)
    ensures Val(s + [n % 0x1_0000_0000]) + (n / 0x1_0000_0000) * Weight(|s| + 1) == Val(s) + n * Weight(|s|)
  {
    hide Val, Weight;
    var low, high, w := n % 0x1_0000_0000, n / 0x1_0000_0000, Weight(|s|);
    ValPush(s, low);
    WeightStep(|s|);
    assert n == high * 0x1_0000_0000 + low;
    DistributeRight(high * 0x1_0000_0000, low, w);
    MulAssoc(high, 0x1_0000_0000, w);
  }

  lemma WeightZero()
    ensures Weight(0) == 1
  {
  }

  lemma FirstBigit(n: nat)
    ensures Val([] + [n % 0x1_0000_0000]) + (n / 0x1_0000_0000) * Weight(1) == n
  {
    AssignStep([], n);
    assert Val([]) == 0 && Weight(0) == 1;
  }

  lemma WeightStep(pos: nat)
    ensures Weight(pos + 1) == 0x1_0000_0000 * Weight(pos)
  {
  }

  lemma ScanAlgebra(a: int, b: int, c: int, borrow: int, w: int)
    requires borrow == 0 || borrow == 0x1_0000_0000
    ensures (c + borrow - (a + b)) * w
         == c * w - a * w - b * w + (if borrow == 0 then 0 else 0x1_0000_0000 * w)
  {
    DistributeRight(a, b, w);
    DistributeRight(c, borrow, w);
    DistributeRight(c + borrow, a + b, w);
  }

  // ----- powers of ten ------------------------------------------------------

  lemma HalfMask(mask: nat, k: nat)
    requires mask == Pow(2, k)
    ensures k == 0 ==> mask / 2 == 0 && mask == 1
    ensures k > 0 ==> mask / 2 == Pow(2, k - 1) && 2 * (mask / 2) == mask
  {
  }

  // The bit of e selected by a power of two.
  predicate BitSet(e: nat, mask: nat)
    requires mask > 0
  {
    (e / mask) % 2 != 0
  }

  // The number formed by the bits of e above the mask, all of e for no mask.
  function BitsAbove(e: nat, mask: nat): int
  {
    if mask == 0 then e else e / (2 * mask)
  }

  lemma NoMask(e: nat)
    ensures BitsAbove(e, 0) == e
  {
  }

  lemma FirstMask(e: nat, mask: nat)
    requires mask <= e < 2 * mask && (mask == 1 || mask % 2 == 0)
    ensures BitsAbove(e, mask / 2) == 1
    ensures mask / 2 > 0 ==> 1 < e
  {
    if mask > 1 { DivModUnique(e, mask, 1, e - mask); }
  }

  lemma NextBit(e: nat, mask: nat)
    requires mask > 0 && (mask == 1 || mask % 2 == 0) && 0 < e
    ensures BitsAbove(e, mask / 2) == 2 * BitsAbove(e, mask) + (if BitSet(e, mask) then 1 else 0)
    ensures mask / 2 > 0 ==> BitsAbove(e, mask / 2) < e
  {
    QuotientBit(e, mask);
    if mask > 1 {
      assert 2 * (mask / 2) == mask;
      QuotientSmaller(e, mask);
    }
  }

  // Reading one more bit of e below the quotient.
  lemma QuotientBit(e: nat, mask: nat)
    requires mask > 0
    ensures e / mask == 2 * (e / (2 * mask)) + (e / mask) % 2
  {
    var q, r := e / mask, e % mask;
    DivModFact(e, mask);
    MulAssoc(q / 2, 2, mask);
    DistributeRight(2 * (q / 2), q % 2, mask);
    MulLe(q % 2, 1, mask);
    DivModUnique(e, 2 * mask, q / 2, (q % 2) * mask + r);
  }

  lemma QuotientSmaller(e: nat, mask: nat)
    requires e > 0 && mask >= 2
    ensures e / mask < e
  {
    DivModFact(e, mask);
    if e <= e / mask { MulLe(2, mask, e / mask); }
  }

  lemma {:induction false} FivesBelowWeight(q: nat)
    ensures Pow(5, q) <= Weight(q)
  {
    if q > 0 { FivesBelowWeight(q - 1); }
  }

  // 5^q needs at most q + 1 bigits.
  lemma FivesAreShort(s: seq<bigit>, q: nat)
    requires |s| > 0 && s[|s| - 1] != 0 && Value(s, 0) == Pow(5, q)
    ensures |s| <= q + 1
  {
    assert Weight(0) == 1;
    FivesBelowWeight(q);
    ValTop(s);
    if |s| > q + 1 { WeightMonotone(q + 1, |s| - 1); }
  }
}
