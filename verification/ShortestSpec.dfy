// What shortest-mode digit generation computes, as a function of the scaled
// fraction r / s and of the distances l and u to the neighbouring boundaries
// (all over the same denominator). After j further digits the digits so far
// are Quo(r, s, j) and the rest is Rem(r, s, j).
module ShortestSpec {
  import opened Powers
  import opened Rounding

  datatype Scaled = Scaled(r: nat, s: nat, l: nat, u: nat, even: bool, seen: bool)
  {
    predicate Valid()
    {
      0 < s && 0 < l <= u && l < r < 10 * s
    }

    function Quo(j: nat): int
      requires Valid()
    {
      (r * Pow(10, j)) / s
    }

    function Rem(j: nat): int
      requires Valid()
    {
      (r * Pow(10, j)) % s
    }

    // The digits so far are no further below the value than the lower
    // boundary. A rest that equals the distance is noticed only if the two
    // bigints that hold them have the same exponent.
    predicate Low(j: nat)
      requires Valid()
    {
      Rem(j) < l * Pow(10, j) || (even && seen && Rem(j) == l * Pow(10, j))
    }

    // One more unit is no further above the value than the upper boundary.
    predicate High(j: nat)
      requires Valid()
    {
      Rem(j) + u * Pow(10, j) > s || (even && Rem(j) + u * Pow(10, j) == s)
    }

    predicate Stop(j: nat)
      requires Valid()
    {
      Low(j) || High(j)
    }

    predicate RoundUp(j: nat)
      requires Valid()
    {
      !Low(j) || (High(j) && (2 * Rem(j) > s || (2 * Rem(j) == s && Quo(j) % 2 != 0)))
    }

    function Result(j: nat): int
      requires Valid()
    {
      Quo(j) + if RoundUp(j) then 1 else 0
    }

    // m units of the j-th digit lie between the boundaries.
    predicate Inside(j: nat, m: int)
      requires Valid()
    {
      && (r - l) * Pow(10, j) < m * s
      && m * s < (r + u) * Pow(10, j)
    }

    predicate InsideOrOn(j: nat, m: int)
      requires Valid()
    {
      && (r - l) * Pow(10, j) <= m * s
      && m * s <= (r + u) * Pow(10, j)
    }

    // The rounding interval is closed for an even significand and open for an
    // odd one.
    predicate Within(j: nat, m: int)
      requires Valid()
    {
      if even then InsideOrOn(j, m) else Inside(j, m)
    }

    // No number with as many digits in the interval is closer to the value than
    // q, and q is the even one of two that are equally close.
    ghost predicate Closest(j: nat, q: int)
      requires Valid()
    {
      forall m :: Within(j, m) ==> Prefers(j, q, m)
    }

    predicate Prefers(j: nat, q: int, m: int)
    {
      && Abs(q * s - r * Pow(10, j)) <= Abs(m * s - r * Pow(10, j))
      && (Abs(q * s - r * Pow(10, j)) == Abs(m * s - r * Pow(10, j)) && m != q ==> q % 2 == 0)
    }

    // The digits so far lie on the lower boundary, which is not noticed, and are
    // the closer ones or, of two that are equally close, the even ones.
    predicate BoundaryMissed(j: nat)
      requires Valid()
    {
      && even && !seen && Rem(j) == l * Pow(10, j)
      && (2 * Rem(j) < s || (2 * Rem(j) == s && Quo(j) % 2 == 0))
    }
  }

  lemma QuoRem(v: Scaled, j: nat)
    requires v.Valid()
    ensures v.r * Pow(10, j) == v.Quo(j) * v.s + v.Rem(j) && 0 <= v.Rem(j) < v.s
    ensures 0 <= v.Quo(j)
  {
    DivModFact(v.r * Pow(10, j), v.s);
    if v.Quo(j) < 0 { MulLe(v.Quo(j), -1, v.s); }
  }

  lemma Boundaries(v: Scaled, j: nat)
    requires v.Valid()
    ensures (v.r - v.l) * Pow(10, j) == v.r * Pow(10, j) - v.l * Pow(10, j)
    ensures (v.r + v.u) * Pow(10, j) == v.r * Pow(10, j) + v.u * Pow(10, j)
    ensures 0 < v.l * Pow(10, j) <= v.u * Pow(10, j)
  {
    MulLe(v.l, v.u, Pow(10, j));
    MulLe(1, v.l, Pow(10, j));
  }

  // Where generation stops, the result lies in the rounding interval: closed
  // for an even significand, open for an odd one.
  lemma ResultInInterval(v: Scaled, j: nat)
    requires v.Valid() && v.Stop(j)
    ensures v.Within(j, v.Result(j))
  {
    hide Pow, Scaled.Quo, Scaled.Rem;
    QuoRem(v, j);
    Boundaries(v, j);
    DistributeStep(v.Quo(j), v.s);
  }

  // Where generation goes on, no number with as few digits lies between the
  // boundaries; on a boundary there is at most the one that was overlooked.
  lemma NothingInside(v: Scaled, j: nat, m: int)
    requires v.Valid() && !v.Stop(j)
    ensures !v.Inside(j, m)
    ensures v.even && v.InsideOrOn(j, m) ==> !v.seen && m * v.s == (v.r - v.l) * Pow(10, j)
  {
    hide Pow, Scaled.Quo, Scaled.Rem;
    QuoRem(v, j);
    Boundaries(v, j);
    DistributeStep(v.Quo(j), v.s);
    if m <= v.Quo(j) { MulLe(m, v.Quo(j), v.s); } else { MulLe(v.Quo(j) + 1, m, v.s); }
  }

  // Of the numbers with fewer digits than the one produced at j, one lies in the
  // interval exactly if it is on the lower boundary and is not noticed there.
  lemma NothingShorter(v: Scaled, j: nat, i: nat, m: int)
    requires v.Valid() && i <= j && !v.Stop(j)
    ensures v.Within(i, m) <==> v.even && !v.seen && m * v.s == (v.r - v.l) * Pow(10, i)
  {
    var t := Pow(10, j - i);
    PowAdd(10, i, j - i);
    ScaleThree(v.r - v.l, m, v.s, v.r + v.u, Pow(10, i), t);
    NothingInside(v, j, m * t);
    Boundaries(v, i);
  }

  lemma ScaleThree(a: int, m: int, s: int, b: int, p: nat, t: nat)
    requires t > 0
    ensures a * p < m * s <==> a * (p * t) < (m * t) * s
    ensures a * p <= m * s <==> a * (p * t) <= (m * t) * s
    ensures a * p == m * s <==> a * (p * t) == (m * t) * s
    ensures m * s < b * p <==> (m * t) * s < b * (p * t)
    ensures m * s <= b * p <==> (m * t) * s <= b * (p * t)
  {
    MulAssoc(a, p, t);
    MulAssoc(b, p, t);
    assert (m * t) * s == (m * s) * t by { MulAssoc(m, t, s); MulAssoc(m, s, t); }
    ScaleOrder(a * p, m * s, t);
    ScaleOrder(m * s, b * p, t);
  }

  lemma ScaleOrder(x: int, y: int, t: nat)
    requires t > 0
    ensures x < y <==> x * t < y * t
    ensures x == y <==> x * t == y * t
  {
    if x < y { MulLt(x, y, t); } else if y < x { MulLt(y, x, t); }
  }

  // One step further down, the rest grows tenfold and gives the next digit.
  lemma NextDigit(v: Scaled, j: nat, d: nat, rest: nat)
    requires v.Valid() && 10 * v.Rem(j) == d * v.s + rest && rest < v.s
    ensures v.Quo(j + 1) == 10 * v.Quo(j) + d && v.Rem(j + 1) == rest
    ensures d <= 9
  {
    hide Scaled.Quo, Scaled.Rem;
    QuoRem(v, j);
    TenTimes(v, j, d, rest);
    if d >= 10 { MulLe(10, d, v.s); }
  }

  lemma TenTimes(v: Scaled, j: nat, d: nat, rest: nat)
    requires v.Valid() && 10 * v.Rem(j) == d * v.s + rest && rest < v.s
    ensures v.Quo(j + 1) == 10 * v.Quo(j) + d && v.Rem(j + 1) == rest
  {
    hide Pow;
    QuoRem(v, j);
    var q, n := v.Quo(j), v.r * Pow(10, j);
    assert v.r * Pow(10, j + 1) == 10 * n by { TenthPower(j); MulAssoc(v.r, Pow(10, j), 10); }
    MulAssoc(10, q, v.s);
    AddFactors(10 * q, d, v.s);
    DivModUnique(10 * n, v.s, 10 * q + d, rest);
  }

  lemma AddFactors(x: int, y: int, k: int)
    ensures (x + y) * k == x * k + y * k
  {
  }

  lemma TenthPower(j: nat)
    ensures Pow(10, j + 1) == Pow(10, j) * 10
    ensures Pow(10, 0) == 1
  {
  }

  lemma FirstDigit(v: Scaled, d: nat, rest: nat)
    requires v.Valid() && v.r == d * v.s + rest && rest < v.s
    ensures v.Quo(0) == d && v.Rem(0) == rest && d <= 9
  {
    assert Pow(10, 0) == 1;
    DivModUnique(v.r, v.s, d, rest);
    if d >= 10 { MulLe(10, d, v.s); }
  }

  // After the first digit a nine is never rounded up.
  lemma NineStays(v: Scaled, j: nat, d: nat, rest: nat)
    requires v.Valid() && !v.Stop(j)
    requires 10 * v.Rem(j) == d * v.s + rest && rest < v.s && v.Stop(j + 1)
    ensures v.RoundUp(j + 1) ==> d <= 8
  {
    hide Scaled.Quo, Scaled.Rem, Pow;
    NextDigit(v, j, d, rest);
    TenthPower(j);
    MulAssoc(v.u, Pow(10, j), 10);
    if d == 9 { assert d * v.s == 9 * v.s; }
  }

  // Generation that stops at its n-th digit yields a number in the rounding
  // interval. A number with fewer digits lies there exactly if the lower boundary
  // is one, and belongs to the interval, but is not noticed.
  lemma ShortestInInterval(v: Scaled, n: nat)
    requires v.Valid() && 0 < n && v.Stop(n - 1)
    requires forall j :: 0 <= j < n - 1 ==> !v.Stop(j)
    ensures v.Within(n - 1, v.Result(n - 1))
    ensures (exists i, m :: 0 <= i < n - 1 && v.Within(i, m))
      <==> v.even && !v.seen && 1 < n && ((v.r - v.l) * Pow(10, n - 2)) % v.s == 0
  {
    hide Scaled.Within, Scaled.Stop, Scaled.Result;
    ResultInInterval(v, n - 1);
    if 1 < n {
      var boundary := (v.r - v.l) * Pow(10, n - 2);
      DivModFact(boundary, v.s);
      NothingShorter(v, n - 2, n - 2, boundary / v.s);
      forall i, m | 0 <= i < n - 1 && v.Within(i, m)
        ensures v.even && !v.seen && boundary % v.s == 0
      {
        NothingShorter(v, n - 2, i, m);
        BoundaryWithMore(v.r - v.l, v.s, i, n - 2, m);
      }
    }
  }

  // A boundary with i further digits is also one with more.
  lemma BoundaryWithMore(x: int, s: nat, i: nat, j: nat, m: int)
    requires 0 < s && i <= j && m * s == x * Pow(10, i)
    ensures (x * Pow(10, j)) % s == 0
  {
    var t := Pow(10, j - i);
    PowAdd(10, i, j - i);
    MulAssoc(x, Pow(10, i), t);
    MulAssoc(m, s, t);
    MulAssoc(m, t, s);
    DivModUnique(x * Pow(10, j), s, m * t, 0);
  }

  // The result is the closest number with as many digits in the interval, except
  // where a closer one on the lower boundary is not noticed.
  lemma ResultIsClosest(v: Scaled, j: nat)
    requires v.Valid() && v.Stop(j)
    ensures v.Closest(j, v.Result(j)) <==> !v.BoundaryMissed(j)
  {
    hide Scaled.Within, Scaled.Prefers, Scaled.BoundaryMissed, Scaled.Stop, Scaled.Result;
    if v.BoundaryMissed(j) {
      MissedIsCloser(v, j);
    } else {
      forall m | v.Within(j, m)
        ensures v.Prefers(j, v.Result(j), m)
      {
        ResultIsPreferred(v, j, m);
      }
    }
  }

  lemma MissedIsCloser(v: Scaled, j: nat)
    requires v.Valid() && v.Stop(j) && v.BoundaryMissed(j)
    ensures v.Within(j, v.Quo(j)) && !v.Prefers(j, v.Result(j), v.Quo(j))
  {
    hide Pow, Scaled.Quo, Scaled.Rem;
    QuoRem(v, j);
    Boundaries(v, j);
    DistributeStep(v.Quo(j), v.s);
  }

  lemma ResultIsPreferred(v: Scaled, j: nat, m: int)
    requires v.Valid() && v.Stop(j) && !v.BoundaryMissed(j) && v.Within(j, m)
    ensures v.Prefers(j, v.Result(j), m)
  {
    hide Pow, Scaled.Quo, Scaled.Rem, Abs;
    QuoRem(v, j);
    Boundaries(v, j);
    var q := v.Quo(j);
    DistributeStep(q, v.s);
    Multiples(m, q, v.s);
    var l, u := v.l * Pow(10, j), v.u * Pow(10, j);
    TakenSide(q * v.s, v.s, v.Rem(j), l, u, m * v.s, v.even, v.seen, v.Low(j), v.High(j), v.RoundUp(j), q % 2 == 0);
    CloserOfTwo(q * v.s, v.s, v.Rem(j), m * v.s, v.RoundUp(j));
  }

  lemma Multiples(m: int, q: int, s: nat)
    ensures m < q ==> m * s <= q * s - s
    ensures m == q + 1 ==> m * s == q * s + s
    ensures m > q ==> q * s + s <= m * s
    ensures m != q && m != q + 1 ==> m * s <= q * s - s || q * s + 2 * s <= m * s
  {
    if m < q {
      MulLe(m, q - 1, s);
      DistributeStep(q - 1, s);
    } else if m > q {
      MulLe(q + 1, m, s);
      DistributeStep(q, s);
      if m > q + 1 { MulLe(q + 2, m, s); DistributeStep(q + 1, s); }
    }
  }

  // A multiple x of s in the interval around a + rest, and on which side of a or
  // a + s it can be.
  lemma TakenSide(a: int, s: nat, rest: int, l: int, u: int, x: int, even: bool, seen: bool,
                  low: bool, high: bool, up: bool, evenDigits: bool)
    requires 0 <= rest < s && 0 < l <= u && (x <= a || a + s <= x) && (x <= a - s || x >= a)
    requires low <==> rest < l || (even && seen && rest == l)
    requires high <==> rest + u > s || (even && rest + u == s)
    requires up <==> !low || (high && (2 * rest > s || (2 * rest == s && !evenDigits)))
    requires low || high
    requires if even then a + rest - l <= x <= a + rest + u else a + rest - l < x < a + rest + u
    requires !(even && !seen && rest == l && (2 * rest < s || (2 * rest == s && evenDigits)))
    ensures up ==> a + s <= x || s <= 2 * rest
    ensures !up ==> x <= a || 2 * rest <= s
    ensures 2 * rest == s && a <= x <= a + s && x != (if up then a + s else a) ==> (up <==> !evenDigits)
  {
  }

  // Of two neighbouring multiples of s around a + rest, the one taken.
  lemma CloserOfTwo(a: int, s: nat, rest: int, x: int, up: bool)
    requires 0 <= rest < s && (x <= a || a + s <= x)
    requires up ==> a + s <= x || s <= 2 * rest
    requires !up ==> x <= a || 2 * rest <= s
    ensures var y := if up then a + s else a;
      && Abs(y - (a + rest)) <= Abs(x - (a + rest))
      && (Abs(y - (a + rest)) == Abs(x - (a + rest)) && x != y ==> 2 * rest == s && a <= x <= a + s)
  {
  }

  // The first digit is a nine that is rounded up: the value is at least nine
  // units, ten units are within the upper boundary, and nine are out of reach
  // or not nearer.
  predicate FirstDigitOverflows(v: Scaled)
    requires v.Valid()
  {
    && 9 * v.s <= v.r
    && (10 * v.s < v.r + v.u || (v.even && 10 * v.s == v.r + v.u))
    && (19 * v.s <= 2 * v.r || 9 * v.s + v.l < v.r || (9 * v.s + v.l == v.r && !(v.even && v.seen)))
  }

  lemma FirstDigitRoundedUp(v: Scaled)
    requires v.Valid()
    ensures FirstDigitOverflows(v) <==> 9 * v.s <= v.r && v.Stop(0) && v.RoundUp(0)
  {
    assert Pow(10, 0) == 1;
    if 9 * v.s <= v.r { DivModUnique(v.r, v.s, 9, v.r - 9 * v.s); }
  }

  // A sufficient condition that the digit estimate normally meets.
  lemma FirstDigitFits(v: Scaled)
    requires v.Valid()
    requires v.r + v.u < 10 * v.s || (!v.even && v.r + v.u == 10 * v.s)
    ensures !FirstDigitOverflows(v) && (v.Stop(0) ==> v.Result(0) <= 9)
  {
    FirstDigitRoundedUp(v);
    FirstQuotient(v);
  }

  lemma FirstQuotient(v: Scaled)
    requires v.Valid()
    ensures v.Quo(0) <= 9 && (v.Quo(0) == 9 ==> 9 * v.s <= v.r)
  {
    assert Pow(10, 0) == 1;
    QuoRem(v, 0);
    if v.Quo(0) >= 10 { MulLe(10, v.Quo(0), v.s); }
  }
}
