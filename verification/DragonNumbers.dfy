// The exact fractions behind digit generation: the floating-point value
// f * 2^e divided by 10^x is NumOf(f, e, x) / DenOf(e, x).
module DragonNumbers {
  import opened Powers

  function Pos(x: int): nat
  {
    if x > 0 then x else 0
  }

  // One unit in the last place of the significand, over DenOf(e, x).
  function Ulp(e: int, x: int): (r: nat)
    ensures r > 0
  {
    MulPositive(Pow(2, Pos(e)), Pow(10, Pos(-x)));
    Pow(2, Pos(e)) * Pow(10, Pos(-x))
  }

  function NumOf(f: nat, e: int, x: int): (r: nat)
  {
    MulPositive(f, Ulp(e, x));
    f * Ulp(e, x)
  }

  function DenOf(e: int, x: int): (r: nat)
    ensures r > 0
  {
    MulPositive(Pow(2, Pos(-e)), Pow(10, Pos(x)));
    Pow(2, Pos(-e)) * Pow(10, Pos(x))
  }

  // Generating k more digits is the same as lowering the decimal exponent.
  lemma LowerExponent(f: nat, e: int, x: int, k: nat)
    ensures (NumOf(f, e, x) * Pow(10, k)) * DenOf(e, x - k) == NumOf(f, e, x - k) * DenOf(e, x)
  {
    hide Pow, Pos;
    var a, b := Pow(2, Pos(e)), Pow(2, Pos(-e));
    var p, q := Pow(10, Pos(-x)), Pow(10, Pos(x));
    var p', q' := Pow(10, Pos(k - x)), Pow(10, Pos(x - k));
    PowersMeet(x, k);
    FourFactors(f, a, p, Pow(10, k), b, q');
    FourFactors(f, a, p', 1, b, q);
    assert (f * (a * p')) * 1 == f * (a * p') && p' * 1 == p';
  }

  lemma PowersMeet(x: int, k: nat)
    ensures Pow(10, Pos(-x)) * Pow(10, k) * Pow(10, Pos(x - k)) == Pow(10, Pos(k - x)) * Pow(10, Pos(x))
    ensures -(x - k) == k - x
  {
    hide Pow;
    PowAdd(10, Pos(-x), k);
    PowAdd(10, Pos(-x) + k, Pos(x - k));
    PowAdd(10, Pos(k - x), Pos(x));
    assert Pos(-x) + k + Pos(x - k) == Pos(k - x) + Pos(x);
  }

  lemma FourFactors(f: int, a: int, p: int, t: int, b: int, q: int)
    ensures ((f * (a * p)) * t) * (b * q) == (f * (a * b)) * (p * t * q)
  {
    MulAssoc(f, a * p, t);
    MulAssoc(a, p, t);
    MulAssoc(f, a * (p * t), b * q);
    SwapMiddle(a, p * t, b, q);
    MulAssoc(f, a * b, p * t * q);
  }

  lemma SwapMiddle(a: int, p: int, b: int, q: int)
    ensures (a * p) * (b * q) == (a * b) * (p * q)
  {
    MulAssoc(a, p, b * q);
    MulAssoc(p, b, q);
    MulAssoc(b, p, q);
    MulAssoc(a, b, p * q);
  }

  // A value of at least one cannot lie below 10^(x + 1) for a negative x.
  lemma ExponentSign(f: nat, e: int, x: int)
    requires 0 < f && 0 <= e && NumOf(f, e, x) < 10 * DenOf(e, x)
    ensures 0 <= x
  {
    if x < 0 {
      assert DenOf(e, x) == 1;
      PowMonotone(10, 1, -x);
      assert Pow(10, 1) == 10;
      MulLe(1, Pow(2, e), Pow(10, -x));
      MulLe(1, f, Ulp(e, x));
    }
  }

  // ----- Numbers that are never equal ---------------------------------------

  // An odd modulus that divides f * 2^e divides f.
  lemma {:induction false} StripTwos(f: nat, e: nat, m: nat, c: nat)
    requires m % 2 == 1 && f * Pow(2, e) == c * m
    ensures exists g: nat :: f == g * m
    decreases e
  {
    if e == 0 {
      assert f == c * m;
    } else {
      var half := f * Pow(2, e - 1);
      assert 2 * half == c * m by { MulAssoc(2, f, Pow(2, e - 1)); MulAssoc(f, 2, Pow(2, e - 1)); }
      var k := m / 2;
      assert c * m == 2 * (c * k) + c by { MulAssoc(2, c, k); assert m == 2 * k + 1; }
      assert c == 2 * (half - c * k);
      var c' := c / 2;
      MulAssoc(2, c', m);
      StripTwos(f, e - 1, m, c');
    }
  }

  lemma {:induction false} FivesAreOdd(k: nat)
    ensures Pow(5, k) % 2 == 1
  {
    if k > 0 { FivesAreOdd(k - 1); }
  }

  lemma FivesOf62Bits(k: nat)
    requires Pow(5, k) < 0x4000_0000_0000_0000
    ensures k < 27
  {
    assert Pow(5, 9) == 1953125;
    PowAdd(5, 9, 9);
    PowAdd(5, 18, 9);
    if 27 <= k { PowMonotone(5, 27, k); }
  }

  // A 62-bit significand with 32 or more binary zeros is not a power of ten.
  lemma NotPowerOfTen(f: nat, e: nat, k: nat)
    requires 0 < f < 0x4000_0000_0000_0000 && 32 <= e
    ensures f * Pow(2, e) != Pow(10, k)
  {
    hide Pow;
    if f * Pow(2, e) == Pow(10, k) {
      PowTen(k);
      FivesAreOdd(k);
      StripTwos(f, e, Pow(5, k), Pow(2, k));
      var g: nat :| f == g * Pow(5, k);
      SharedFives(g, e, k);
    }
  }

  lemma SharedFives(g: nat, e: nat, k: nat)
    requires 0 < g * Pow(5, k) < 0x4000_0000_0000_0000 && 32 <= e
    ensures (g * Pow(5, k)) * Pow(2, e) != Pow(5, k) * Pow(2, k)
  {
    hide Pow;
    var fives := Pow(5, k);
    assert g > 0;
    MulLe(1, g, fives);
    FivesOf62Bits(k);
    MulAssoc(g, fives, Pow(2, e));
    MulAssoc(g, Pow(2, e), fives);
    MulLe(1, g, Pow(2, e));
    PowMonotone(2, k + 1, e);
    TwiceAsMuch(k);
    if g * Pow(2, e) * fives == Pow(2, k) * fives { MulCancel(g * Pow(2, e), Pow(2, k), fives); }
  }

  lemma TwiceAsMuch(k: nat)
    ensures Pow(2, k) < Pow(2, k + 1)
  {
  }

  // ... nor does it become one when decimal zeros are appended.
  lemma NeverPowerOfTen(f: nat, e: nat, i: nat, x: nat)
    requires 0 < f < 0x4000_0000_0000_0000 && 32 <= e
    ensures (f * Pow(2, e)) * Pow(10, i) != Pow(10, x)
  {
    if (f * Pow(2, e)) * Pow(10, i) == Pow(10, x) {
      MulLe(1, f, Pow(2, e));
      MulLe(1, f * Pow(2, e), Pow(10, i));
      if x < i {
        assert Pow(10, x) < Pow(10, x + 1);
        PowMonotone(10, x + 1, i);
      } else {
        PowAdd(10, x - i, i);
        MulCancel(f * Pow(2, e), Pow(10, x - i), Pow(10, i));
        NotPowerOfTen(f, e, x - i);
      }
    }
  }

  // A multiple of ten is not a power of two.
  lemma {:induction false} NotPowerOfTwo(c: nat, m: nat)
    ensures 5 * c != Pow(2, m)
    decreases m
  {
    if 5 * c == Pow(2, m) && m > 0 {
      assert c % 2 == 0;
      NotPowerOfTwo(c / 2, m - 1);
    }
  }

  lemma NeverPowerOfTwo(f: nat, n: nat, i: nat, m: nat)
    requires 0 < n
    ensures (f * Pow(10, n)) * Pow(10, i) != Pow(2, m)
  {
    var c := (f * (2 * Pow(10, n - 1))) * Pow(10, i);
    assert (f * Pow(10, n)) * Pow(10, i) == 5 * c by {
      MulAssoc(5, f, 2 * Pow(10, n - 1));
      MulAssoc(f, 5, 2 * Pow(10, n - 1));
      MulAssoc(5, f * (2 * Pow(10, n - 1)), Pow(10, i));
    }
    NotPowerOfTwo(c, m);
  }
}
