// Wide products built from 32-bit halves, and the truncated products that the
// shortest-format kernels take from them.
module WideMul {
  import opened Powers
  import opened Words

  // The schoolbook identity on 32-bit halves.
  lemma Halves(x: int, y: int, a: int, b: int, c: int, d: int)
    requires x == a * 0x1_0000_0000 + b && y == c * 0x1_0000_0000 + d
    ensures x * y == (a * c) * 0x1_0000_0000_0000_0000 + (a * d + b * c) * 0x1_0000_0000 + b * d
  {
    calc {
      x * y;
      (a * 0x1_0000_0000 + b) * (c * 0x1_0000_0000 + d);
      (a * 0x1_0000_0000) * (c * 0x1_0000_0000) + (a * 0x1_0000_0000) * d + b * (c * 0x1_0000_0000) + b * d;
      (a * c) * 0x1_0000_0000_0000_0000 + (a * d) * 0x1_0000_0000 + (b * c) * 0x1_0000_0000 + b * d;
    }
  }

  // A product of two halves leaves room for two more halves in 64 bits.
  lemma HalfProduct(x: uint32, y: uint32)
    ensures 0 <= (x as int) * y <= 0xFFFF_FFFE_0000_0001
  {
    MulLe(x, 0xFFFF_FFFF, y);
  }

  // Adding the middle halves and carrying, with an extra term for rounding.
  lemma Middle(ac: nat, ad: nat, bc: nat, bd: nat, extra: nat)
    ensures var mid := bd / 0x1_0000_0000 + ad % 0x1_0000_0000 + bc % 0x1_0000_0000 + extra;
      ac * 0x1_0000_0000_0000_0000 + (ad + bc) * 0x1_0000_0000 + bd + extra * 0x1_0000_0000
      == (ac + ad / 0x1_0000_0000 + bc / 0x1_0000_0000 + mid / 0x1_0000_0000) * 0x1_0000_0000_0000_0000
         + (mid % 0x1_0000_0000) * 0x1_0000_0000 + bd % 0x1_0000_0000
  {
  }

  lemma ProductBound(x: uint64, y: uint64)
    ensures 0 <= (x as int) * y <= 0xFFFF_FFFF_FFFF_FFFE_0000_0000_0000_0001
  {
    MulLe(x, 0xFFFF_FFFF_FFFF_FFFF, y);
  }

  // lhs * rhs / 2^64, rounded to nearest with ties upwards, from halves.
  function Multiply(lhs: uint64, rhs: uint64): (r: uint64)
    ensures r == ((lhs as int) * rhs + 0x8000_0000_0000_0000) / 0x1_0000_0000_0000_0000
  {
    var a: uint32, b: uint32 := lhs / 0x1_0000_0000, lhs % 0x1_0000_0000;
    var c: uint32, d: uint32 := rhs / 0x1_0000_0000, rhs % 0x1_0000_0000;
    HalfProduct(a, c); HalfProduct(b, c); HalfProduct(a, d); HalfProduct(b, d);
    var ac: uint64, bc: uint64 := (a as int) * c, (b as int) * c;
    var ad: uint64, bd: uint64 := (a as int) * d, (b as int) * d;
    Halves(lhs, rhs, a, b, c, d);
    Middle(ac, ad, bc, bd, 0x8000_0000);
    ProductBound(lhs, rhs);
    var mid: uint64 := bd / 0x1_0000_0000 + ad % 0x1_0000_0000 + bc % 0x1_0000_0000 + 0x8000_0000;
    ac + ad / 0x1_0000_0000 + bc / 0x1_0000_0000 + mid / 0x1_0000_0000
  }

  // The same from a 128-bit product: the bit below the cut decides.
  function MultiplyInt128(lhs: uint64, rhs: uint64): (r: uint64)
  {
    ProductBound(lhs, rhs);
    var product := (lhs as int) * rhs;
    var f := product / 0x1_0000_0000_0000_0000;
    if (product % 0x1_0000_0000_0000_0000) / 0x8000_0000_0000_0000 != 0 then f + 1 else f
  }

  lemma MultiplyPathsAgree(lhs: uint64, rhs: uint64)
    ensures Multiply(lhs, rhs) == MultiplyInt128(lhs, rhs)
  {
    ProductBound(lhs, rhs);
  }

  datatype Uint128 = Uint128(high: uint64, low: uint64)
  {
    function Value(): nat
    {
      high * 0x1_0000_0000_0000_0000 + low
    }

    // Adds a 64-bit number; the carry shows as a wrapped low word.
    function Add(n: uint64): (r: Uint128)
      ensures r.Value() == (Value() + n) % 0x1_0000_0000_0000_0000_0000_0000_0000_0000
    {
      var sum := (low + n) % 0x1_0000_0000_0000_0000;
      CarryIntoHigh(high, low, n);
      Uint128((high + if sum < low then 1 else 0) % 0x1_0000_0000_0000_0000, sum)
    }
  }

  lemma CarryIntoHigh(high: uint64, low: uint64, n: uint64)
    ensures var sum := (low + n) % 0x1_0000_0000_0000_0000;
      var high' := high + if sum < low then 1 else 0;
      (high' % 0x1_0000_0000_0000_0000) * 0x1_0000_0000_0000_0000 + sum
      == (high * 0x1_0000_0000_0000_0000 + low + n) % 0x1_0000_0000_0000_0000_0000_0000_0000_0000
  {
    var sum := (low + n) % 0x1_0000_0000_0000_0000;
    var high' := high + if sum < low then 1 else 0;
    assert high * 0x1_0000_0000_0000_0000 + low + n == high' * 0x1_0000_0000_0000_0000 + sum;
    WordMod(high', sum);
  }

  lemma WordMod(high: nat, low: uint64)
    requires high <= 0x1_0000_0000_0000_0000
    ensures (high * 0x1_0000_0000_0000_0000 + low) % 0x1_0000_0000_0000_0000_0000_0000_0000_0000
         == (high % 0x1_0000_0000_0000_0000) * 0x1_0000_0000_0000_0000 + low
  {
    if high == 0x1_0000_0000_0000_0000 {
      DivModUnique(high * 0x1_0000_0000_0000_0000 + low, 0x1_0000_0000_0000_0000_0000_0000_0000_0000, 1, low);
    } else {
      DivModUnique(high * 0x1_0000_0000_0000_0000 + low, 0x1_0000_0000_0000_0000_0000_0000_0000_0000, 0,
                   high * 0x1_0000_0000_0000_0000 + low);
    }
  }

  function Umul128(x: uint64, y: uint64): (r: Uint128)
    ensures r.Value() == (x as int) * y
  {
    var a: uint32, b: uint32 := x / 0x1_0000_0000, x % 0x1_0000_0000;
    var c: uint32, d: uint32 := y / 0x1_0000_0000, y % 0x1_0000_0000;
    HalfProduct(a, c); HalfProduct(b, c); HalfProduct(a, d); HalfProduct(b, d);
    Halves(x, y, a, b, c, d);
    ProductBound(x, y);
    FromHalves((a as int) * c, (a as int) * d, (b as int) * c, (b as int) * d)
  }

  function FromHalves(ac: uint64, ad: uint64, bc: uint64, bd: uint64): (r: Uint128)
    requires ad <= 0xFFFF_FFFE_0000_0001 && bc <= 0xFFFF_FFFE_0000_0001 && bd <= 0xFFFF_FFFE_0000_0001
    requires (ac as int) * 0x1_0000_0000_0000_0000 + (ad + bc) * 0x1_0000_0000 + bd
          <= 0xFFFF_FFFF_FFFF_FFFE_0000_0000_0000_0001
    ensures r.Value() == ac * 0x1_0000_0000_0000_0000 + (ad + bc) * 0x1_0000_0000 + bd
  {
    Middle(ac, ad, bc, bd, 0);
    var intermediate: uint64 := bd / 0x1_0000_0000 + ad % 0x1_0000_0000 + bc % 0x1_0000_0000;
    LowWord(intermediate);
    Uint128(ac + intermediate / 0x1_0000_0000 + ad / 0x1_0000_0000 + bc / 0x1_0000_0000,
            (intermediate * 0x1_0000_0000) % 0x1_0000_0000_0000_0000 + bd % 0x1_0000_0000)
  }

  lemma LowWord(mid: uint64)
    ensures (mid * 0x1_0000_0000) % 0x1_0000_0000_0000_0000 == (mid % 0x1_0000_0000) * 0x1_0000_0000
  {
  }

  function Umul128Upper64(x: uint64, y: uint64): (r: uint64)
    ensures r == ((x as int) * y) / 0x1_0000_0000_0000_0000
  {
    Umul128(x, y).high
  }

  lemma SplitFactor(x: uint64, y: Uint128)
    ensures x * y.Value() == ((x as int) * y.high) * 0x1_0000_0000_0000_0000 + (x as int) * y.low
    ensures 0 <= (x as int) * y.high
  {
    MulAssoc(x, y.high, 0x1_0000_0000_0000_0000);
    ProductBound(x, y.high);
  }

  // Dividing twice by 2^64 is dividing once by 2^128.
  lemma DivideTwice(p: nat, high: nat, low: nat)
    requires p == high * 0x1_0000_0000_0000_0000 + low
    ensures p / 0x1_0000_0000_0000_0000_0000_0000_0000_0000
         == (high + low / 0x1_0000_0000_0000_0000) / 0x1_0000_0000_0000_0000
    ensures p / 0x1_0000_0000_0000_0000 == high + low / 0x1_0000_0000_0000_0000
  {
  }

  // The low word of a sum may be formed from the low words.
  lemma WrappedSum(high: nat, low: nat)
    ensures (high % 0x1_0000_0000_0000_0000 + low) % 0x1_0000_0000_0000_0000 == (high + low) % 0x1_0000_0000_0000_0000
  {
  }

  lemma HighWord(v: Uint128, p: nat)
    requires p < 0x1_0000_0000_0000_0000_0000_0000_0000_0000
    requires v.Value() == p % 0x1_0000_0000_0000_0000_0000_0000_0000_0000
    ensures v.high == p / 0x1_0000_0000_0000_0000
  {
  }

  // Bits 128 and up of a 64 by 128 bit product.
  function Umul192Upper64(x: uint64, y: Uint128): (r: uint64)
    ensures r == (x * y.Value()) / 0x1_0000_0000_0000_0000_0000_0000_0000_0000
  {
    hide Umul128, Umul128Upper64, Uint128.Value, Uint128.Add;
    SplitFactor(x, y);
    ProductBound(x, y.high);
    ProductBound(x, y.low);
    DivideTwice(x * y.Value(), (x as int) * y.high, (x as int) * y.low);
    var g0 := Umul128(x, y.high).Add(Umul128Upper64(x, y.low));
    HighWord(g0, (x as int) * y.high + Umul128Upper64(x, y.low));
    g0.high
  }

  // Bits 64 to 127 of the same product.
  function Umul192Middle64(x: uint64, y: Uint128): (r: uint64)
    ensures r == (x * y.Value()) / 0x1_0000_0000_0000_0000 % 0x1_0000_0000_0000_0000
  {
    hide Umul128, Umul128Upper64, Uint128.Value;
    SplitFactor(x, y);
    ProductBound(x, y.low);
    DivideTwice(x * y.Value(), (x as int) * y.high, (x as int) * y.low);
    var g01 := ((x as int) * y.high) % 0x1_0000_0000_0000_0000;
    var g10 := Umul128Upper64(x, y.low);
    WrappedSum((x as int) * y.high, g10);
    (g01 + g10) % 0x1_0000_0000_0000_0000
  }

  // n / 1000 by multiplication with (2^73 + 608) / 1000.
  const THOUSANDTH: uint64 := 0x83126e978d4fdf3c

  function DivideBy1000(n: uint64): uint64
  {
    Umul128Upper64(n, THOUSANDTH) / 0x200
  }

  // Exactly when the quotient comes out right.
  lemma DivideBy1000Exact(n: uint64)
    ensures DivideBy1000(n) == n / 1000
       <==> (n / 1000) * 608 + (n % 1000) * THOUSANDTH < 0x200_0000_0000_0000_0000
  {
    var q, r := n / 1000, n % 1000;
    var rest := q * 608 + r * THOUSANDTH;
    assert n * THOUSANDTH == q * 0x200_0000_0000_0000_0000 + rest by {
      assert 1000 * THOUSANDTH == 0x200_0000_0000_0000_0000 + 608;
      assert n * THOUSANDTH == (1000 * q + r) * THOUSANDTH;
    }
  }

  // The first number for which it does not is beyond 2^63.
  lemma DivideBy1000Range(n: uint64)
    ensures n < 15534100272597517999 ==> DivideBy1000(n) == n / 1000
    ensures DivideBy1000(15534100272597517999) != 15534100272597517999 / 1000
  {
    DivideBy1000Exact(n);
    DivideBy1000Exact(15534100272597517999);
  }
}
