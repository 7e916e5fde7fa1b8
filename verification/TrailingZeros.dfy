// Deciding divisibility by one wrapping multiplication, and removing decimal
// trailing zeros with it.
module TrailingZeros {
  import opened Powers
  import opened Words

  // ----- The multiply-and-compare test --------------------------------------

  // m is the inverse of d modulo w.
  predicate Inverse(d: nat, m: nat, w: nat)
  {
    0 < d && 1 < w && (d * m) % w == 1
  }

  // x * m wraps to a small number exactly for the multiples of d, and then the
  // wrapped product is the quotient.
  lemma MultiplyAndCompare(x: nat, d: nat, m: nat, w: nat)
    requires Inverse(d, m, w) && x < w
    ensures (x * m) % w <= (w - 1) / d <==> x % d == 0
    ensures x % d == 0 ==> (x * m) % w == x / d
  {
    var q, v := (x * m) % w, (x * m) / w;
    var u := (d * m) / w;
    DivModFact(x * m, w);
    DivModFact(d * m, w);
    if x % d == 0 {
      MultipleWraps(x, d, m, w, u);
    } else if q <= (w - 1) / d {
      SmallProduct(x, d, m, w, q, v, u);
    }
  }

  // The product of a multiple wraps to its quotient.
  lemma MultipleWraps(x: nat, d: nat, m: nat, w: nat, u: int)
    requires 0 < d && x < w && d * m == u * w + 1 && x % d == 0
    ensures (x * m) % w == x / d && x / d <= (w - 1) / d
  {
    var k := x / d;
    DivModFact(x, d);
    assert x == k * d;
    if k < 0 { MulLe(k, -1, d); }
    MulLe(1, d, k);
    assert x * m == (k * u) * w + k by {
      MulAssoc(k, d, m);
      MulAssoc(k, u, w);
      PlusOne(k, u * w);
    }
    DivModUnique(x * m, w, k * u, k);
    QuotientAtLeast(w - 1, d, k);
  }

  lemma QuotientAtLeast(n: int, d: nat, k: int)
    requires 0 < d && k * d <= n
    ensures k <= n / d
  {
    var q := n / d;
    DivModFact(n, d);
    assert (q + 1) * d == q * d + d;
    if q + 1 <= k { MulLe(q + 1, k, d); }
  }

  lemma SmallProduct(x: nat, d: nat, m: nat, w: nat, q: nat, v: int, u: int)
    requires 0 < d && 0 < w && x < w
    requires x * m == v * w + q && d * m == u * w + 1 && q <= (w - 1) / d
    ensures x % d == 0
  {
    MulLe(q, (w - 1) / d, d);
    DivModFact(w - 1, d);
    MulPositive(q, d);
    var c := x * u - d * v;
    ProductIdentity(x, d, m, w, q, v, u);
    if c >= 1 { MulLe(1, c, w); } else if c <= -1 { MulLe(c, -1, w); }
    assert c == 0;
    DivModUnique(x, d, q, 0);
  }

  lemma ProductIdentity(x: int, d: int, m: int, w: int, q: int, v: int, u: int)
    requires x * m == v * w + q && d * m == u * w + 1
    ensures q * d == x + (x * u - d * v) * w
  {
    var xu, dv := x * u, d * v;
    assert q * d == (x * m) * d - dv * w by { MinusTimes(x * m, v * w, d); MulAssoc(v, w, d); MulAssoc(v, d, w); }
    assert (x * m) * d == xu * w + x by { MulAssoc(x, m, d); PlusOne(x, u * w); MulAssoc(x, u, w); }
    MinusTimes(xu, dv, w);
  }

  lemma MinusTimes(a: int, b: int, k: int)
    ensures (a - b) * k == a * k - b * k
  {
  }

  lemma PlusOne(x: int, y: int)
    ensures x * (y + 1) == x * y + x
  {
  }

  // ----- The tables for powers of five --------------------------------------

  datatype DivtestEntry = DivtestEntry(modInv: nat, maxQuotient: nat)

  const DIVTEST_TABLE_32: seq<DivtestEntry> := [
    DivtestEntry(0x00000001, 0xffffffff),
    DivtestEntry(0xcccccccd, 0x33333333),
    DivtestEntry(0xc28f5c29, 0x0a3d70a3),
    DivtestEntry(0x26e978d5, 0x020c49ba),
    DivtestEntry(0x3afb7e91, 0x0068db8b),
    DivtestEntry(0x0bcbe61d, 0x0014f8b5),
    DivtestEntry(0x68c26139, 0x000431bd),
    DivtestEntry(0xae8d46a5, 0x0000d6bf),
    DivtestEntry(0x22e90e21, 0x00002af3),
    DivtestEntry(0x3a2e9c6d, 0x00000897),
    DivtestEntry(0x3ed61f49, 0x000001b7)
  ]

  const DIVTEST_TABLE_64: seq<DivtestEntry> := [
    DivtestEntry(0x0000000000000001, 0xffffffffffffffff),
    DivtestEntry(0xcccccccccccccccd, 0x3333333333333333),
    DivtestEntry(0x8f5c28f5c28f5c29, 0x0a3d70a3d70a3d70),
    DivtestEntry(0x1cac083126e978d5, 0x020c49ba5e353f7c),
    DivtestEntry(0xd288ce703afb7e91, 0x0068db8bac710cb2),
    DivtestEntry(0x5d4e8fb00bcbe61d, 0x0014f8b588e368f0),
    DivtestEntry(0x790fb65668c26139, 0x000431bde82d7b63),
    DivtestEntry(0xe5032477ae8d46a5, 0x0000d6bf94d5e57a),
    DivtestEntry(0xc767074b22e90e21, 0x00002af31dc46118),
    DivtestEntry(0x8e47ce423a2e9c6d, 0x0000089705f4136b),
    DivtestEntry(0x4fa7f60d3ed61f49, 0x000001b7cdfd9d7b),
    DivtestEntry(0x0fee64690c913975, 0x00000057f5ff85e5),
    DivtestEntry(0x3662e0e1cf503eb1, 0x000000119799812d),
    DivtestEntry(0xa47a2cf9f6433fbd, 0x0000000384b84d09),
    DivtestEntry(0x54186f653140a659, 0x00000000b424dc35),
    DivtestEntry(0x7738164770402145, 0x0000000024075f3d),
    DivtestEntry(0xe4a4d1417cd9a041, 0x000000000734aca5),
    DivtestEntry(0xc75429d9e5c5200d, 0x000000000170ef54),
    DivtestEntry(0xc1773b91fac10669, 0x000000000049c977),
    DivtestEntry(0x26b172506559ce15, 0x00000000000ec1e4),
    DivtestEntry(0xd489e3a9addec2d1, 0x000000000002f394),
    DivtestEntry(0x90e860bb892c8d5d, 0x000000000000971d),
    DivtestEntry(0x502e79bf1b6f4f79, 0x0000000000001e39),
    DivtestEntry(0xdcd618596be30fe5, 0x000000000000060b)
  ]

  predicate RowFits(row: DivtestEntry, d: nat, w: nat)
  {
    Inverse(d, row.modInv, w) && row.maxQuotient == (w - 1) / d
  }

  lemma {:induction false} Rows32(k: nat)
    requires k < |DIVTEST_TABLE_32|
    ensures RowFits(DIVTEST_TABLE_32[k], Pow(5, k), 0x1_0000_0000)
  {
    FivesUpTo(k);
  }

  lemma {:induction false} Rows64(k: nat)
    requires k < |DIVTEST_TABLE_64|
    ensures RowFits(DIVTEST_TABLE_64[k], Pow(5, k), 0x1_0000_0000_0000_0000)
  {
    hide Pow, RowFits;
    if k < 8 { RowsFrom0(k); } else if k < 16 { RowsFrom8(k); } else { RowsFrom16(k); }
  }

  lemma RowsFrom0(k: nat)
    requires k < 8
    ensures RowFits(DIVTEST_TABLE_64[k], Pow(5, k), 0x1_0000_0000_0000_0000)
  {
    FivesUpTo(k);
  }

  lemma RowsFrom8(k: nat)
    requires 8 <= k < 16
    ensures RowFits(DIVTEST_TABLE_64[k], Pow(5, k), 0x1_0000_0000_0000_0000)
  {
    FivesUpTo(k);
  }

  lemma RowsFrom16(k: nat)
    requires 16 <= k < 24
    ensures RowFits(DIVTEST_TABLE_64[k], Pow(5, k), 0x1_0000_0000_0000_0000)
  {
    FivesUpTo(k);
  }

  lemma FivesUpTo(k: nat)
    requires k <= 23
    ensures k == 0 ==> Pow(5, k) == 1
    ensures k == 1 ==> Pow(5, k) == 5
    ensures k == 2 ==> Pow(5, k) == 25
    ensures k == 3 ==> Pow(5, k) == 125
    ensures k == 4 ==> Pow(5, k) == 625
    ensures k == 5 ==> Pow(5, k) == 3125
    ensures k == 6 ==> Pow(5, k) == 15625
    ensures k == 7 ==> Pow(5, k) == 78125
    ensures k == 8 ==> Pow(5, k) == 390625
    ensures k == 9 ==> Pow(5, k) == 1953125
    ensures k == 10 ==> Pow(5, k) == 9765625
    ensures k == 11 ==> Pow(5, k) == 48828125
    ensures k == 12 ==> Pow(5, k) == 244140625
    ensures k == 13 ==> Pow(5, k) == 1220703125
    ensures k == 14 ==> Pow(5, k) == 6103515625
    ensures k == 15 ==> Pow(5, k) == 30517578125
    ensures k == 16 ==> Pow(5, k) == 152587890625
    ensures k == 17 ==> Pow(5, k) == 762939453125
    ensures k == 18 ==> Pow(5, k) == 3814697265625
    ensures k == 19 ==> Pow(5, k) == 19073486328125
    ensures k == 20 ==> Pow(5, k) == 95367431640625
    ensures k == 21 ==> Pow(5, k) == 476837158203125
    ensures k == 22 ==> Pow(5, k) == 2384185791015625
    ensures k == 23 ==> Pow(5, k) == 11920928955078125
  {
  }

  // Whether x is divisible by 5^exp.
  function DivisibleByPowerOf5Short(x: uint32, exp: nat): (r: bool)
    requires exp <= 10
    ensures r <==> x % Pow(5, exp) == 0
  {
    Rows32(exp);
    MultiplyAndCompare(x, Pow(5, exp), DIVTEST_TABLE_32[exp].modInv, 0x1_0000_0000);
    (x * DIVTEST_TABLE_32[exp].modInv) % 0x1_0000_0000 <= DIVTEST_TABLE_32[exp].maxQuotient
  }

  function DivisibleByPowerOf5(x: uint64, exp: nat): (r: bool)
    requires exp <= 23
    ensures r <==> x % Pow(5, exp) == 0
  {
    Rows64(exp);
    MultiplyAndCompare(x, Pow(5, exp), DIVTEST_TABLE_64[exp].modInv, 0x1_0000_0000_0000_0000);
    (x * DIVTEST_TABLE_64[exp].modInv) % 0x1_0000_0000_0000_0000 <= DIVTEST_TABLE_64[exp].maxQuotient
  }

  // ----- Removing trailing zeros --------------------------------------------

  // The number of trailing zero bits.
  function CountTrailingZeros(n: nat): (t: nat)
    requires n > 0
    ensures exists odd: nat :: odd % 2 == 1 && n == odd * Pow(2, t)
  {
    if n % 2 == 1 then
      assert n == n * Pow(2, 0);
      0
    else
      var t := CountTrailingZeros(n / 2);
      DoublePower(n, t);
      t + 1
  }

  lemma DoublePower(n: nat, t: nat)
    requires n % 2 == 0 && exists odd: nat :: odd % 2 == 1 && n / 2 == odd * Pow(2, t)
    ensures exists odd: nat :: odd % 2 == 1 && n == odd * Pow(2, t + 1)
  {
    var odd: nat :| odd % 2 == 1 && n / 2 == odd * Pow(2, t);
    MulAssoc(2, odd, Pow(2, t));
    MulAssoc(odd, 2, Pow(2, t));
    assert n == odd * Pow(2, t + 1);
  }

  // Dividing by an odd factor keeps the factors of two.
  lemma {:induction false} KeepTwos(c: nat, odd: nat, t: nat)
    requires odd % 2 == 1 && (c * odd) % Pow(2, t) == 0
    ensures c % Pow(2, t) == 0
  {
    if t > 0 {
      var g := (c * odd) / Pow(2, t);
      DivModFact(c * odd, Pow(2, t));
      assert c * odd == 2 * (g * Pow(2, t - 1)) by { MulAssoc(g, 2, Pow(2, t - 1)); MulAssoc(2, g, Pow(2, t - 1)); }
      EvenFactor(c, odd, g * Pow(2, t - 1));
      var half := c / 2;
      assert half * odd == g * Pow(2, t - 1) by { MulAssoc(2, half, odd); }
      DivModUnique(half * odd, Pow(2, t - 1), g, 0);
      KeepTwos(half, odd, t - 1);
      var h := half / Pow(2, t - 1);
      DivModFact(half, Pow(2, t - 1));
      assert c == h * Pow(2, t) by { MulAssoc(2, h, Pow(2, t - 1)); MulAssoc(h, 2, Pow(2, t - 1)); }
      DivModUnique(c, Pow(2, t), h, 0);
    }
  }

  lemma EvenFactor(c: int, odd: nat, half: int)
    requires odd % 2 == 1 && c * odd == 2 * half
    ensures c % 2 == 0
  {
    var k := odd / 2;
    assert c * odd == 2 * (c * k) + c by { MulAssoc(c, 2, k); MulAssoc(2, c, k); assert odd == 2 * k + 1; PlusOne(c, 2 * k); }
  }

  lemma {:induction false} FivesOdd(s: nat)
    ensures Pow(5, s) % 2 == 1
  {
    if s > 0 { FivesOdd(s - 1); }
  }

  // What removing s zeros from n means: an exact quotient, and a last digit
  // that is not zero unless the cap was reached.
  predicate Stripped(n: nat, m: nat, s: nat, cap: nat)
  {
    && n == m * Pow(10, s) && s <= cap
    && (m % 10 == 0 ==> s == cap)
  }

  // The state of the removal: s factors of five are gone, and t is the number
  // of factors of two that may go with them.
  predicate FivesGone(n: nat, rest: nat, s: nat, t: nat)
  {
    n == rest * Pow(5, s) && n % Pow(2, t) == 0 && s <= t
  }

  // t is as large as it can be below the cap.
  predicate Limit(n: nat, t: nat, cap: nat)
  {
    t <= cap && n % Pow(2, t) == 0 && (t < cap ==> n % Pow(2, t + 1) != 0)
  }

  lemma LimitFromCount(n: nat, cap: nat)
    requires n > 0
    ensures var c := CountTrailingZeros(n); Limit(n, if c > cap then cap else c, cap)
  {
    hide Pow;
    var c := CountTrailingZeros(n);
    var odd: nat :| odd % 2 == 1 && n == odd * Pow(2, c);
    var t := if c > cap then cap else c;
    PowerDivides(n, odd, t, c);
    if t < cap { NextPowerDoesNot(n, odd, t); }
  }

  lemma PowerDivides(n: nat, odd: nat, t: nat, c: nat)
    requires n == odd * Pow(2, c) && t <= c
    ensures n % Pow(2, t) == 0
  {
    hide Pow;
    PowAdd(2, c - t, t);
    MulAssoc(odd, Pow(2, c - t), Pow(2, t));
    DivModUnique(n, Pow(2, t), odd * Pow(2, c - t), 0);
  }

  lemma NextPowerDoesNot(n: nat, odd: nat, t: nat)
    requires n == odd * Pow(2, t) && odd % 2 == 1
    ensures n % Pow(2, t + 1) != 0
  {
    var p := Pow(2, t);
    assert Pow(2, t + 1) == 2 * p;
    hide Pow;
    TwiceDoesNot(n, odd, p);
  }

  lemma TwiceDoesNot(n: nat, odd: nat, p: nat)
    requires n == odd * p && odd % 2 == 1 && p > 0
    ensures n % (2 * p) == p
  {
    var k := odd / 2;
    assert n == k * (2 * p) + p by {
      MulAssoc(k, 2, p);
      PlusOne(p, 2 * k);
    }
    DivModUnique(n, 2 * p, k, p);
  }

  // Dividing the twos off at the end.
  lemma Finish(n: nat, rest: nat, s: nat, t: nat, cap: nat)
    requires FivesGone(n, rest, s, t) && Limit(n, t, cap) && n > 0
    requires s < t ==> rest % 5 != 0
    ensures rest % Pow(2, s) == 0
    ensures 0 <= rest / Pow(2, s) && Stripped(n, rest / Pow(2, s), s, cap)
  {
    hide Pow;
    FivesOdd(s);
    KeepTwos(rest, Pow(5, s), t);
    var two, m := Pow(2, s), rest / Pow(2, t) * Pow(2, t - s);
    PowAdd(2, t - s, s);
    DivModFact(rest, Pow(2, t));
    MulAssoc(rest / Pow(2, t), Pow(2, t - s), two);
    DivModUnique(rest, two, m, 0);
    PowTen(s);
    assert n == m * Pow(10, s) by { MulAssoc(m, two, Pow(5, s)); }
    if m < 0 { MulLe(m, -1, two); }
    if m % 10 == 0 && s < cap {
      TenDivides(n, rest, m, s, t);
    }
  }

  // A further zero would have shown as a factor of five or of two.
  lemma TenDivides(n: nat, rest: nat, m: nat, s: nat, t: nat)
    requires m % 10 == 0 && s <= t && rest == m * Pow(2, s) && n == m * Pow(10, s)
    ensures rest % 5 == 0
    ensures s == t ==> n % Pow(2, t + 1) == 0
  {
    hide Pow;
    var d := m / 10;
    var two, five := Pow(2, s), Pow(5, s);
    TenFactor(d, m, two, five);
    DivModUnique(rest, 5, d * 2 * two, 0);
    if s == t {
      PowTen(s);
      TwoMore(s);
      DivModUnique(n, Pow(2, s + 1), (d * 5) * five, 0);
    }
  }

  lemma TenFactor(d: int, m: int, two: int, five: int)
    requires m == 10 * d
    ensures m * two == (d * 2 * two) * 5
    ensures m * (five * two) == ((d * 5) * five) * (2 * two)
  {
    MulAssoc(5, d * 2, two);
    var k := (d * 5) * five;
    MulAssoc(k, 2, two);
    MulAssoc(2, d * 5, five);
    MulAssoc(m, five, two);
  }

  lemma TwoMore(s: nat)
    ensures Pow(2, s + 1) == 2 * Pow(2, s)
  {
  }

  const MOD_INV_1: uint32 := 0xcccccccd
  const MAX_QUOTIENT_1: uint32 := 0x33333333

  // The wrapping product that is a fifth of every multiple of five.
  function TimesFifth(n: uint32): (r: uint32)
    ensures r <= MAX_QUOTIENT_1 <==> n % 5 == 0
    ensures n % 5 == 0 ==> r == n / 5
  {
    MultiplyAndCompare(n, 5, MOD_INV_1, 0x1_0000_0000);
    (n * MOD_INV_1) % 0x1_0000_0000
  }

  function TimesTwentyFifth(n: uint32): (r: uint32)
    ensures r <= 0x0a3d70a3 <==> n % 25 == 0
    ensures n % 25 == 0 ==> r == n / 25
  {
    MultiplyAndCompare(n, 25, 0xc28f5c29, 0x1_0000_0000);
    (n * 0xc28f5c29) % 0x1_0000_0000
  }

  const MAX_QUOTIENT_8: uint64 := 0x00002af31dc46118

  // The wrapping 64-bit product that divides by 5^8.
  function TimesEighthPower(n: uint64): (r: uint64)
    ensures r <= MAX_QUOTIENT_8 <==> n % 390625 == 0
    ensures n % 390625 == 0 ==> r == n / 390625
  {
    MultiplyAndCompare(n, 390625, 0xc767074b22e90e21, 0x1_0000_0000_0000_0000);
    (n * 0xc767074b22e90e21) % 0x1_0000_0000_0000_0000
  }

  // A fifth of the rest is one more factor of five.
  lemma NextFive(n: nat, rest: nat, s: nat, t: nat)
    requires FivesGone(n, rest, s, t) && s < t && rest % 5 == 0
    ensures FivesGone(n, rest / 5, s + 1, t)
  {
    MulAssoc(rest / 5, 5, Pow(5, s));
  }

  lemma StartFives(n: nat, t: nat)
    requires n % Pow(2, t) == 0
    ensures FivesGone(n, n, 0, t)
  {
    assert Pow(5, 0) == 1;
  }

  lemma TwoFives(n: nat, rest: nat, s: nat, t: nat)
    requires FivesGone(n, rest, s, t) && s + 1 < t && rest % 25 == 0
    ensures FivesGone(n, rest / 25, s + 2, t)
  {
    NextFive(n, rest, s, t);
    NextFive(n, rest / 5, s + 1, t);
  }

  // 32-bit significands.
  method RemoveTrailingZerosShort(n: uint32, cap: nat) returns (m: uint32, s: nat)
    requires n > 0
    ensures Stripped(n, m, s, cap)
  {
    hide Pow, FivesGone, Limit, Stripped, TimesFifth, TimesTwentyFifth, CountTrailingZeros;
    var t := CountTrailingZeros(n);
    LimitFromCount(n, cap);
    if t > cap { t := cap; }
    LimitMeans(n, t, cap);
    StartFives(n, t);
    m, s := n, 0;
    while s < t - 1
      invariant s <= t && FivesGone(n, m, s, t)
      decreases t - s
    {
      var product := TimesTwentyFifth(m);
      if product > 0x0a3d70a3 { break; }
      TwoFives(n, m, s, t);
      m := product;
      s := s + 2;
    }
    assert s < t - 1 ==> m % 25 != 0;
    LastFive(n, m, s, t);
    if s < t {
      var product := TimesFifth(m);
      if product <= MAX_QUOTIENT_1 {
        m := product;
        s := s + 1;
      }
    }
    Finish(n, m, s, t, cap);
    Smaller(m, s);
    m := m / Pow(2, s);
  }

  // One more factor of five is all there can be when 25 was ruled out.
  lemma LastFive(n: nat, rest: nat, s: nat, t: nat)
    requires FivesGone(n, rest, s, t) && (s < t - 1 ==> rest % 25 != 0)
    ensures s < t && rest % 5 == 0 ==> FivesGone(n, rest / 5, s + 1, t)
    ensures s < t - 1 && rest % 5 == 0 ==> (rest / 5) % 5 != 0
  {
    if s < t && rest % 5 == 0 { NextFive(n, rest, s, t); }
  }

  lemma LimitMeans(n: nat, t: nat, cap: nat)
    requires Limit(n, t, cap)
    ensures t <= cap && n % Pow(2, t) == 0
  {
  }

  lemma Smaller(m: nat, s: nat)
    ensures 0 <= m / Pow(2, s) <= m
  {
    hide Pow;
    var q := m / Pow(2, s);
    DivModFact(m, Pow(2, s));
    if q < 0 { MulLe(q, -1, Pow(2, s)); } else { MulLe(1, Pow(2, s), q); }
  }

  // ----- 64-bit significands ------------------------------------------------

  // 10^8 / 5^s, for the factors taken out of the low eight digits so far.
  function EightDigits(s: nat): nat
    requires s <= 8
  {
    256 * Pow(5, 8 - s)
  }

  lemma EightDigitsFacts(s: nat)
    requires s <= 8
    ensures EightDigits(0) == 100000000
    ensures EightDigits(s) == Pow(2, s) * Pow(10, 8 - s)
    ensures s < 8 ==> EightDigits(s) == 5 * EightDigits(s + 1)
  {
    assert Pow(2, 8) == 256 && Pow(5, 8) == 390625;
    PowAdd(2, s, 8 - s);
    PowTen(8 - s);
    MulAssoc(Pow(2, s), Pow(2, 8 - s), Pow(5, 8 - s));
    if s < 8 { MulAssoc(256, 5, Pow(5, 7 - s)); }
  }

  // What is left of n when s zeros are being taken from its last eight digits.
  function Rest(remainder: nat, quotient: nat, s: nat): (r: nat)
    requires s <= 8
  {
    remainder + quotient * EightDigits(s)
  }

  predicate Stage(n: nat, remainder: nat, quotient: nat, s: nat, t: nat)
  {
    s < 8 && FivesGone(n, Rest(remainder, quotient, s), s, t)
  }

  lemma RestModFive(remainder: nat, quotient: nat, s: nat)
    requires s < 8
    ensures Rest(remainder, quotient, s) % 5 == remainder % 5
    ensures remainder % 5 == 0 ==> Rest(remainder, quotient, s) / 5 == Rest(remainder / 5, quotient, s + 1)
  {
    hide EightDigits, Pow;
    EightDigitsFacts(s);
    var next := EightDigits(s + 1);
    MulAssoc(quotient, 5, next);
    MulAssoc(5, quotient, next);
    FiveMore(remainder, quotient * next);
  }

  lemma FiveMore(remainder: nat, k: int)
    ensures (remainder + 5 * k) % 5 == remainder % 5
    ensures remainder % 5 == 0 ==> (remainder + 5 * k) / 5 == remainder / 5 + k
  {
  }

  lemma StageNext(n: nat, remainder: nat, quotient: nat, s: nat, t: nat)
    requires Stage(n, remainder, quotient, s, t) && s < t && remainder % 5 == 0
    ensures s < 7 ==> Stage(n, remainder / 5, quotient, s + 1, t)
  {
    hide Rest, FivesGone;
    RestModFive(remainder, quotient, s);
    NextFive(n, Rest(remainder, quotient, s), s, t);
  }

  // The number that is returned after s zeros.
  function Output(remainder: nat, quotient: nat, s: nat): nat
    requires s < 8
  {
    Smaller(remainder, s);
    MulPositive(quotient, Pow(10, 8 - s));
    remainder / Pow(2, s) + quotient * Pow(10, 8 - s)
  }

  // Shifting the remainder alone is shifting the whole.
  lemma StageDone(n: nat, remainder: nat, quotient: nat, s: nat, t: nat, cap: nat)
    requires n > 0 && Limit(n, t, cap) && Stage(n, remainder, quotient, s, t)
    ensures s == t || remainder % 5 != 0 ==> Stripped(n, Output(remainder, quotient, s), s, cap)
  {
    hide FivesGone, Limit, Stripped, Pow, EightDigits, Rest;
    if s == t || remainder % 5 != 0 {
      RestModFive(remainder, quotient, s);
      StageAtMost(n, remainder, quotient, s, t);
      Finish(n, Rest(remainder, quotient, s), s, t, cap);
      RestShifted(remainder, quotient, s);
    }
  }

  lemma RestShifted(remainder: nat, quotient: nat, s: nat)
    requires s < 8
    ensures Rest(remainder, quotient, s) / Pow(2, s) == Output(remainder, quotient, s)
  {
    hide Pow, EightDigits;
    EightDigitsFacts(s);
    var ten, two := Pow(10, 8 - s), Pow(2, s);
    assert quotient * (two * ten) == (quotient * ten) * two by { MulAssoc(quotient, ten, two); }
    MulPositive(quotient, ten);
    AddMultiple(remainder, quotient * ten, two);
  }

  lemma StageAtMost(n: nat, remainder: nat, quotient: nat, s: nat, t: nat)
    requires Stage(n, remainder, quotient, s, t)
    ensures s <= t
  {
  }

  lemma AddMultiple(x: nat, k: nat, d: nat)
    requires 0 < d
    ensures (x + k * d) / d == x / d + k
  {
    DivModFact(x, d);
    assert (x / d + k) * d == (x / d) * d + k * d;
    DivModUnique(x + k * d, d, x / d + k, x % d);
  }

  lemma SmallPowersOfTwo()
    ensures Pow(2, 0) == 1 && Pow(2, 1) == 2 && Pow(2, 2) == 4 && Pow(2, 3) == 8 && Pow(2, 4) == 16
    ensures Pow(2, 5) == 32 && Pow(2, 6) == 64 && Pow(2, 7) == 128 && Pow(2, 8) == 256
  {
  }

  lemma SmallPowersOfTen()
    ensures Pow(10, 8) == 100000000 && Pow(10, 7) == 10000000 && Pow(10, 6) == 1000000 && Pow(10, 5) == 100000
    ensures Pow(10, 4) == 10000 && Pow(10, 3) == 1000 && Pow(10, 2) == 100 && Pow(10, 1) == 10
  {
  }

  // The last eight digits in 32-bit arithmetic, where the product wraps.
  lemma WrappedRemainder(n: uint64, quotient: uint32)
    requires quotient == n / 100000000
    ensures ((n - (100000000 * quotient) % 0x1_0000_0000) % 0x1_0000_0000_0000_0000) % 0x1_0000_0000 == n % 100000000
  {
    var p, r := 100000000 * quotient, n % 100000000;
    var j := p / 0x1_0000_0000;
    DivModFact(n, 100000000);
    DivModFact(p, 0x1_0000_0000);
    var x := n - p % 0x1_0000_0000;
    DivModUnique(x, 0x1_0000_0000_0000_0000, 0, x);
    DivModUnique(x, 0x1_0000_0000, j, r);
  }

  // Works on the quotient by 10^8, which is a 32-bit number.
  method StripQuotient(n: uint64, candidate: uint64, t: nat, cap: nat) returns (m: uint64, s: nat)
    requires n > 0 && n / 100000000 < 0x1_0000_0000
    requires 8 <= t && Limit(n, t, cap) && n % 390625 == 0 && candidate == n / 390625
    ensures Stripped(n, m, s, cap)
  {
    hide Pow, FivesGone, Limit, Stripped;
    var quotient: uint32 := (candidate / 256) % 0x1_0000_0000;
    StartQuotient(n, t, cap);
    s := 8;
    while s < t
      invariant 8 <= s <= t && FivesGone(n, quotient * 256, s, t)
      decreases t - s
    {
      if TimesFifth(quotient) > MAX_QUOTIENT_1 { break; }
      ScaledFive(quotient);
      NextFive(n, quotient * 256, s, t);
      quotient := TimesFifth(quotient);
      s := s + 1;
    }
    ScaledFive(quotient);
    Finish(n, quotient * 256, s, t, cap);
    DropEight(quotient, s);
    Smaller(quotient, s - 8);
    m := quotient / Pow(2, s - 8);
  }

  lemma ScaledFive(quotient: nat)
    ensures (quotient * 256) % 5 == 0 <==> quotient % 5 == 0
    ensures quotient % 5 == 0 ==> (quotient * 256) / 5 == (quotient / 5) * 256
  {
  }

  lemma StartQuotient(n: nat, t: nat, cap: nat)
    requires n / 100000000 < 0x1_0000_0000 && 8 <= t && Limit(n, t, cap) && n % 390625 == 0
    ensures FivesGone(n, ((n / 390625 / 256) % 0x1_0000_0000) * 256, 8, t)
  {
    assert Pow(5, 8) == 390625 && Pow(2, 8) == 256;
    PowAdd(2, t - 8, 8);
    var g := n / Pow(2, t);
    DivModFact(n, Pow(2, t));
    MulAssoc(g, Pow(2, t - 8), 256);
    assert n == (g * Pow(2, t - 8)) * 256;
    EightTwosAndFives(n, g * Pow(2, t - 8));
  }

  lemma EightTwosAndFives(n: nat, h: int)
    requires n == h * 256 && n % 390625 == 0 && n / 100000000 < 0x1_0000_0000
    ensures ((n / 390625 / 256) % 0x1_0000_0000) * 256 * 390625 == n
  {
    var k := n / 390625;
    DivModFact(n, 390625);
    SmallPowersOfTwo();
    DivModUnique(n, 256, h, 0);
    KeepTwos(k, 390625, 8);
    var q := k / 256;
    DivModFact(k, 256);
    DivModUnique(n, 100000000, q, 0);
  }

  lemma DropEight(quotient: nat, s: nat)
    requires 8 <= s
    ensures (quotient * 256) / Pow(2, s) == quotient / Pow(2, s - 8)
  {
    hide Pow;
    SmallPowersOfTwo();
    PowAdd(2, s - 8, 8);
    var d := Pow(2, s - 8);
    DivModFact(quotient, d);
    var q, r := quotient / d, quotient % d;
    MulAssoc(q, d, 256);
    MulLe(r + 1, d, 256);
    assert quotient * 256 == (q * d) * 256 + r * 256;
    DivModUnique(quotient * 256, d * 256, q, r * 256);
  }

  method RemoveTrailingZeros(n: uint64, cap: nat) returns (m: uint64, s: nat)
    requires n > 0 && n / 100000000 < 0x1_0000_0000
    ensures Stripped(n, m, s, cap)
  {
    hide Pow, FivesGone, Limit, Stripped;
    var t := CountTrailingZeros(n);
    LimitFromCount(n, cap);
    if t > cap { t := cap; }
    LimitMeans(n, t, cap);
    // If the number is divisible by 10^8, work with the quotient.
    if t >= 8 {
      var candidate := TimesEighthPower(n);
      if candidate <= MAX_QUOTIENT_8 {
        m, s := StripQuotient(n, candidate, t, cap);
        return;
      }
    }
    m, s := StripRemainder(n, t, cap);
  }

  // Otherwise, work with the last eight digits.
  method StripRemainder(n: uint64, t: nat, cap: nat) returns (m: uint64, s: nat)
    requires n > 0 && n / 100000000 < 0x1_0000_0000
    requires Limit(n, t, cap) && (t < 8 || n % 390625 != 0)
    ensures Stripped(n, m, s, cap)
  {
    hide Pow, Limit, Stripped, Stage, TimesFifth, Rest, FivesGone;
    var quotient: uint32 := n / 100000000;
    WrappedRemainder(n, quotient);
    var remainder: uint32 := ((n - (100000000 * quotient) % 0x1_0000_0000) % 0x1_0000_0000_0000_0000) % 0x1_0000_0000;
    LimitMeans(n, t, cap);
    StartStage(n, quotient, t);
    SmallPowersOfTwo();
    SmallPowersOfTen();
    StageDone(n, remainder, quotient, 0, t, cap);
    if t == 0 || TimesFifth(remainder) > MAX_QUOTIENT_1 { return n, 0; }
    StageNext(n, remainder, quotient, 0, t);
    remainder := TimesFifth(remainder);
    StageDone(n, remainder, quotient, 1, t, cap);
    if t == 1 || TimesFifth(remainder) > MAX_QUOTIENT_1 { return remainder / 2 + quotient * 10000000, 1; }
    StageNext(n, remainder, quotient, 1, t);
    remainder := TimesFifth(remainder);
    StageDone(n, remainder, quotient, 2, t, cap);
    if t == 2 || TimesFifth(remainder) > MAX_QUOTIENT_1 { return remainder / 4 + quotient * 1000000, 2; }
    StageNext(n, remainder, quotient, 2, t);
    remainder := TimesFifth(remainder);
    StageDone(n, remainder, quotient, 3, t, cap);
    if t == 3 || TimesFifth(remainder) > MAX_QUOTIENT_1 { return remainder / 8 + quotient * 100000, 3; }
    StageNext(n, remainder, quotient, 3, t);
    remainder := TimesFifth(remainder);
    StageDone(n, remainder, quotient, 4, t, cap);
    if t == 4 || TimesFifth(remainder) > MAX_QUOTIENT_1 { return remainder / 16 + quotient * 10000, 4; }
    StageNext(n, remainder, quotient, 4, t);
    remainder := TimesFifth(remainder);
    StageDone(n, remainder, quotient, 5, t, cap);
    if t == 5 || TimesFifth(remainder) > MAX_QUOTIENT_1 { return remainder / 32 + quotient * 1000, 5; }
    StageNext(n, remainder, quotient, 5, t);
    remainder := TimesFifth(remainder);
    StageDone(n, remainder, quotient, 6, t, cap);
    if t == 6 || TimesFifth(remainder) > MAX_QUOTIENT_1 { return remainder / 64 + quotient * 100, 6; }
    StageNext(n, remainder, quotient, 6, t);
    remainder := TimesFifth(remainder);
    SevenIsLast(n, remainder, quotient, t);
    StageDone(n, remainder, quotient, 7, t, cap);
    return remainder / 128 + quotient * 10, 7;
  }

  lemma StartStage(n: nat, quotient: nat, t: nat)
    requires quotient == n / 100000000 && n % Pow(2, t) == 0
    ensures Stage(n, n % 100000000, quotient, 0, t)
  {
    EightDigitsFacts(0);
    StartFives(n, t);
  }

  // After seven factors of five there is no eighth, or no further two.
  lemma SevenIsLast(n: nat, remainder: nat, quotient: nat, t: nat)
    requires Stage(n, remainder, quotient, 7, t) && (t < 8 || n % 390625 != 0)
    ensures t == 7 || remainder % 5 != 0
  {
    if t >= 8 && remainder % 5 == 0 {
      hide Rest, FivesGone, Pow;
      RestModFive(remainder, quotient, 7);
      NextFive(n, Rest(remainder, quotient, 7), 7, t);
      EightFives(n, Rest(remainder, quotient, 7) / 5, t);
    }
  }

  lemma EightFives(n: nat, rest: nat, t: nat)
    requires FivesGone(n, rest, 8, t)
    ensures n % 390625 == 0
  {
    assert Pow(5, 8) == 390625;
    DivModUnique(n, 390625, rest, 0);
  }
}
