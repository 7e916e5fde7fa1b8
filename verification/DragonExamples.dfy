// Two inputs for which shortest-mode digit generation misses what it promises.
module DragonExamples {
  import opened Powers
  import opened ShortestSpec
  import opened Dragon4

  lemma PowersUsed()
    ensures Pow(2, 24) == 16777216 && Pow(2, 32) == 4294967296
    ensures Pow(10, 0) == 1 && Pow(10, 1) == 10 && Pow(10, 2) == 100 && Pow(10, 3) == 1000
    ensures Pow(10, 22) == 10000000000000000000000
    ensures Pow(10, 25) == 10000000000000000000000000
  {
    assert Pow(2, 8) == 256;
    PowAdd(2, 8, 8);
    PowAdd(2, 16, 8);
    PowAdd(2, 16, 16);
    assert Pow(10, 6) == 1000000;
    PowAdd(10, 6, 6);
    PowAdd(10, 12, 6);
    assert Pow(10, 4) == 10000;
    PowAdd(10, 18, 4);
    PowAdd(10, 22, 3);
  }

  lemma GoesOn(v: Scaled, j: nat, p: nat, q: nat, rest: nat)
    requires v.Valid() && Pow(10, j) == p
    requires v.r * p == q * v.s + rest && v.l * p <= rest && rest + v.u * p < v.s
    requires rest == v.l * p ==> !v.seen
    ensures !v.Stop(j)
  {
    DivModUnique(v.r * p, v.s, q, rest);
  }

  lemma OnBoundary()
    ensures ScaledOf(8344650268554688, 32, false, 25)
         == Scaled(71680000000000004294967296, 20000000000000000000000000, 4294967296, 4294967296, true, false)
  {
    PowersUsed();
  }

  // The four digits 3584 lie on the lower boundary, which counts as inside for
  // an even significand, but the comparison overlooks them and goes on.
  lemma BoundaryIsOverlooked()
    ensures var v := ScaledOf(8344650268554688, 32, false, 25);
      && v.Valid() && v.even && v.InsideOrOn(3, 3584)
      && forall j :: 0 <= j <= 3 ==> !v.Stop(j)
  {
    hide Pow, ScaledOf, Scaled.Stop;
    PowersUsed();
    OnBoundary();
    var v := ScaledOf(8344650268554688, 32, false, 25);
    GoesOn(v, 0, 1, 3, v.r - 3 * v.s);
    GoesOn(v, 1, 10, 35, v.r * 10 - 35 * v.s);
    GoesOn(v, 2, 100, 358, v.r * 100 - 358 * v.s);
    GoesOn(v, 3, 1000, 3584, v.r * 1000 - 3584 * v.s);
  }

  // The upper boundary of this even significand is 10^23 itself, so that the
  // first digit, a nine, is rounded up to a ten.
  lemma FirstDigitBecomesTen()
    ensures var v := ScaledOf(0x152D02C7E14AF6, 24, false, 22);
      v.Valid() && FirstDigitOverflows(v)
  {
    PowersUsed();
    var v := ScaledOf(0x152D02C7E14AF6, 24, false, 22);
    DivModUnique(v.r, v.s, 9, v.r - 9 * v.s);
  }
}
