// The schoolbook product of two bigit sequences, arranged by columns: column k
// gathers the products a[i] * b[k - i]. The columns, weighted by their
// position, add up to the product of the two numbers.
module Convolution {
  import opened Powers
  import opened Bigits

  function Digit(a: seq<bigit>, i: int): bigit
  {
    if 0 <= i < |a| then a[i] else 0
  }

  // Sum of a[i] * b[k - i] over lo <= i < hi.
  function Terms(a: seq<bigit>, b: seq<bigit>, k: int, lo: int, hi: int): (r: nat)
    decreases hi - lo
  {
    if hi <= lo then 0
    else
      MulPositive(Digit(a, hi - 1), Digit(b, k - (hi - 1)));
      Terms(a, b, k, lo, hi - 1) + Digit(a, hi - 1) * Digit(b, k - (hi - 1))
  }

  function Column(a: seq<bigit>, b: seq<bigit>, k: nat): (r: nat)
  {
    Terms(a, b, k, 0, k + 1)
  }

  // Sum of the first n columns, each at its position.
  function Columns(a: seq<bigit>, b: seq<bigit>, n: nat): (r: nat)
  {
    if n == 0 then 0
    else
      MulPositive(Column(a, b, n - 1), Weight(n - 1));
      Columns(a, b, n - 1) + Column(a, b, n - 1) * Weight(n - 1)
  }

  lemma NoTerms(a: seq<bigit>, b: seq<bigit>, k: int, lo: int)
    ensures Terms(a, b, k, lo, lo) == 0
  {
  }

  lemma ColumnsStart(a: seq<bigit>)
    ensures Columns(a, a, 0) == 0
  {
  }

  lemma TermsStep(a: seq<bigit>, b: seq<bigit>, k: int, lo: int, hi: int)
    requires lo <= hi && 0 <= hi < |a| && 0 <= k - hi < |b|
    ensures Terms(a, b, k, lo, hi + 1) == Terms(a, b, k, lo, hi) + (a[hi] as int) * b[k - hi]
  {
  }

  lemma ColumnsStep(a: seq<bigit>, b: seq<bigit>, k: nat)
    ensures Columns(a, b, k + 1) == Columns(a, b, k) + Column(a, b, k) * Weight(k)
  {
  }

  lemma {:induction false} TermsSplit(a: seq<bigit>, b: seq<bigit>, k: int, lo: int, mid: int, hi: int)
    requires lo <= mid <= hi
    ensures Terms(a, b, k, lo, hi) == Terms(a, b, k, lo, mid) + Terms(a, b, k, mid, hi)
    decreases hi - mid
  {
    if mid < hi { TermsSplit(a, b, k, lo, mid, hi - 1); }
  }

  lemma {:induction false} TermsOutside(a: seq<bigit>, b: seq<bigit>, k: int, lo: int, hi: int)
    requires forall i :: lo <= i < hi ==> Digit(a, i) == 0 || Digit(b, k - i) == 0
    ensures Terms(a, b, k, lo, hi) == 0
    decreases hi - lo
  {
    if lo < hi { TermsOutside(a, b, k, lo, hi - 1); }
  }

  // In the upper half only the indices with both factors in range contribute.
  lemma ColumnUpper(a: seq<bigit>, k: nat)
    requires |a| <= k < 2 * |a|
    ensures Column(a, a, k) == Terms(a, a, k, k - |a| + 1, |a|)
  {
    var lo, hi := k - |a| + 1, |a|;
    TermsSplit(a, a, k, 0, lo, k + 1);
    TermsSplit(a, a, k, lo, hi, k + 1);
    TermsOutside(a, a, k, 0, lo);
    TermsOutside(a, a, k, hi, k + 1);
  }

  lemma {:induction false} TermsBound(a: seq<bigit>, b: seq<bigit>, k: int, lo: int, hi: int)
    requires lo <= hi
    ensures Terms(a, b, k, lo, hi) <= (hi - lo) * 0xFFFF_FFFE_0000_0001
    decreases hi - lo
  {
    if lo < hi {
      TermsBound(a, b, k, lo, hi - 1);
      BigitProduct(Digit(a, hi - 1), Digit(b, k - (hi - 1)));
    }
  }

  lemma BigitProduct(x: bigit, y: bigit)
    ensures 0 <= x * y <= 0xFFFF_FFFE_0000_0001
  {
    MulLe(x, 0xFFFF_FFFF, y);
  }

  lemma {:induction false} TermsAppend(a: seq<bigit>, x: bigit, b: seq<bigit>, k: int, hi: nat)
    ensures Terms(a + [x], b, k, 0, hi)
         == Terms(a, b, k, 0, hi) + if |a| < hi then x * Digit(b, k - |a|) else 0
  {
    if hi > 0 { TermsAppend(a, x, b, k, hi - 1); }
  }

  lemma ColumnAppend(a: seq<bigit>, x: bigit, b: seq<bigit>, k: nat)
    ensures Column(a + [x], b, k) == Column(a, b, k) + x * BigitAt(b, |a|, k)
  {
    TermsAppend(a, x, b, k, k + 1);
  }

  lemma {:induction false} ColumnsAppend(a: seq<bigit>, x: bigit, b: seq<bigit>, n: nat)
    ensures Columns(a + [x], b, n) == Columns(a, b, n) + x * Below(b, |a|, n)
  {
    if n > 0 {
      ColumnsAppend(a, x, b, n - 1);
      ColumnAppend(a, x, b, n - 1);
      Regroup(Columns(a, b, n - 1), Below(b, |a|, n - 1), Column(a, b, n - 1),
              x, BigitAt(b, |a|, n - 1), Weight(n - 1));
    }
  }

  lemma Regroup(sum: int, below: int, column: int, x: int, d: int, w: int)
    ensures (sum + x * below) + (column + x * d) * w == (sum + column * w) + x * (below + d * w)
  {
    DistributeRight(column, x * d, w);
    MulAssoc(x, d, w);
    DistributeRight(below, d * w, x);
  }

  lemma {:induction false} ColumnsEmpty(a: seq<bigit>, b: seq<bigit>, n: nat)
    requires |a| == 0
    ensures Columns(a, b, n) == 0
  {
    if n > 0 {
      ColumnsEmpty(a, b, n - 1);
      TermsOutside(a, b, n - 1, 0, n);
    }
  }

  lemma {:induction false} ColumnsAreProduct(a: seq<bigit>, b: seq<bigit>, n: nat)
    requires |a| + |b| <= n
    ensures Columns(a, b, n) == Val(a) * Val(b)
    decreases |a|
  {
    if |a| == 0 {
      ColumnsEmpty(a, b, n);
    } else {
      var p := |a| - 1;
      var a', x := a[..p], a[p];
      assert a == a' + [x];
      ColumnsAreProduct(a', b, n);
      ColumnsAppend(a', x, b, n);
      BelowAll(b, p, n);
      calc {
        Columns(a, b, n);
        Val(a') * Val(b) + x * (Val(b) * Weight(p));
        { MulAssoc(x, Weight(p), Val(b)); }
        Val(a') * Val(b) + (x * Weight(p)) * Val(b);
        { DistributeRight(Val(a'), x * Weight(p), Val(b)); }
        Val(a) * Val(b);
      }
    }
  }
}
