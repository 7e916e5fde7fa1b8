// Rounding of a non-negative fraction n / d to the nearest integer, ties to
// even, as a relation that does not mention how the integer is found.
module Rounding {
  import opened Powers

  function Abs(x: int): (r: nat)
  {
    if x < 0 then -x else x
  }

  predicate IsNearestEven(n: nat, d: nat, q: nat)
  {
    && 2 * Abs(n - q * d) <= d
    && (2 * Abs(n - q * d) == d ==> q % 2 == 0)
  }

  // There is only one such integer.
  lemma NearestEvenUnique(n: nat, d: nat, q: nat, q': nat)
    requires 0 < d && IsNearestEven(n, d, q) && IsNearestEven(n, d, q')
    ensures q == q'
  {
    if q + 2 <= q' { Apart(n, d, q, q'); }
    if q' + 2 <= q { Apart(n, d, q', q); }
    if q' == q + 1 { DistributeStep(q, d); }
    if q == q' + 1 { DistributeStep(q', d); }
  }

  lemma DistributeStep(q: int, d: int)
    ensures (q + 1) * d == q * d + d
  {
  }

  lemma Apart(n: nat, d: nat, q: nat, q': nat)
    requires 0 < d && q + 2 <= q'
    ensures !IsNearestEven(n, d, q) || !IsNearestEven(n, d, q')
  {
    MulLe(q + 2, q', d);
    DistributeStep(q, d);
    DistributeStep(q + 1, d);
  }

  // Euclidean division followed by a comparison of twice the remainder rounds
  // to nearest even.
  lemma RoundFromRemainder(n: nat, d: nat, q: nat, r: nat)
    requires 0 < d && n == q * d + r && r < d
    ensures IsNearestEven(n, d, if 2 * r > d || (2 * r == d && q % 2 != 0) then q + 1 else q)
  {
    DistributeStep(q, d);
  }

  lemma AbsScale(x: int, k: nat)
    ensures Abs(x * k) == Abs(x) * k
  {
    if x >= 0 { MulLe(0, x, k); } else { MulLe(x, 0, k); assert x * k == -((-x) * k); }
  }

  // Only the ratio matters.
  lemma NearestEvenRatio(n: nat, d: nat, n': nat, d': nat, q: nat)
    requires 0 < d && 0 < d' && n * d' == n' * d
    requires IsNearestEven(n, d, q)
    ensures IsNearestEven(n', d', q)
  {
    var x, x' := n - q * d, n' - q * d';
    calc {
      x * d';
      n * d' - (q * d) * d';
      { MulAssoc(q, d, d'); MulAssoc(q, d', d); }
      n' * d - (q * d') * d;
      x' * d;
    }
    AbsScale(x, d');
    AbsScale(x', d);
    var a, a' := 2 * Abs(x), 2 * Abs(x');
    assert a * d' == a' * d;
    MulLe(a, d, d');
    if d' < a' { MulLt(d', a', d); }
    if a' == d' { MulCancel(a, d, d'); }
  }

  // A multiple of ten that is nearest stays nearest one digit further up.
  lemma NearestCoarser(n: nat, d: nat, q: nat)
    requires 0 < d && IsNearestEven(n, d, 10 * q)
    ensures IsNearestEven(n, 10 * d, q)
  {
    MulAssoc(q, 10, d);
  }
}
