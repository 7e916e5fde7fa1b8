// Sequences of base-2^32 digits ("bigits"), least significant first, and the
// number that such a sequence stands for at a given exponent.
module Bigits {
  import opened Powers

  const BASE := 0x1_0000_0000

  type bigit = x: int | 0 <= x < 0x1_0000_0000

  // 2^(32 n), the weight of bigit position n.
  function Weight(n: nat): (r: nat)
    ensures r > 0
  {
    if n == 0 then 1 else 0x1_0000_0000 * Weight(n - 1)
  }

  lemma {:induction false} WeightAdd(m: nat, n: nat)
    ensures Weight(m + n) == Weight(m) * Weight(n)
  {
    if m == 0 {
    } else {
      WeightAdd(m - 1, n);
      assert m + n - 1 == m - 1 + n;
      MulAssoc(0x1_0000_0000, Weight(m - 1), Weight(n));
    }
  }

  lemma {:induction false} WeightMonotone(m: nat, n: nat)
    requires m <= n
    ensures Weight(m) <= Weight(n)
    decreases n - m
  {
    if m < n { WeightMonotone(m, n - 1); }
  }

  lemma {:induction false} WeightIsPow2(n: nat)
    ensures Weight(n) == Pow(2, 32 * n)
  {
    if n == 0 {
    } else {
      WeightIsPow2(n - 1);
      PowAdd(2, 32, 32 * (n - 1));
      PowerTwo32();
    }
  }

  lemma PowerTwo32()
    ensures Pow(2, 32) == 0x1_0000_0000
  {
    assert Pow(2, 8) == 256;
    PowAdd(2, 8, 8);
    PowAdd(2, 16, 16);
  }

  // The number written by s.
  function Val(s: seq<bigit>): (r: nat)
  {
    if |s| == 0 then 0
    else
      MulPositive(s[|s| - 1], Weight(|s| - 1));
      Val(s[..|s| - 1]) + s[|s| - 1] * Weight(|s| - 1)
  }

  lemma ValPush(s: seq<bigit>, x: bigit)
    ensures Val(s + [x]) == Val(s) + x * Weight(|s|)
  {
    assert (s + [x])[..|s|] == s;
  }

  lemma ValTake(s: seq<bigit>, i: nat)
    requires i < |s|
    ensures Val(s[..i + 1]) == Val(s[..i]) + s[i] * Weight(i)
  {
    assert s[..i + 1][..i] == s[..i];
  }

  lemma {:induction false} ValBound(s: seq<bigit>)
    ensures Val(s) < Weight(|s|)
  {
    if |s| == 0 {
    } else {
      var n := |s| - 1;
      ValBound(s[..n]);
      var d: int := s[n];
      MulLe(d + 1, BASE, Weight(n));
      assert (d + 1) * Weight(n) == d * Weight(n) + Weight(n);
    }
  }

  lemma ValTop(s: seq<bigit>)
    requires |s| > 0 && s[|s| - 1] != 0
    ensures Val(s) >= Weight(|s| - 1)
  {
    MulLe(1, s[|s| - 1], Weight(|s| - 1));
  }

  // A sequence is top-normalized exactly when it is large enough for its length.
  lemma TopFromVal(s: seq<bigit>)
    requires |s| > 0 && Val(s) >= Weight(|s| - 1)
    ensures s[|s| - 1] != 0
  {
    ValBound(s[..|s| - 1]);
  }

  lemma {:induction false} ValConcat(s: seq<bigit>, t: seq<bigit>)
    ensures Val(s + t) == Val(s) + Val(t) * Weight(|s|)
    decreases |t|
  {
    if |t| == 0 {
      assert s + t == s;
    } else {
      var n := |t| - 1;
      var t' := t[..n];
      assert s + t == (s + t') + [t[n]];
      ValPush(s + t', t[n]);
      ValConcat(s, t');
      calc {
        Val(s + t);
        Val(s) + Val(t') * Weight(|s|) + t[n] * Weight(|s| + n);
        { WeightAdd(n, |s|); MulAssoc(t[n], Weight(n), Weight(|s|)); }
        Val(s) + Val(t') * Weight(|s|) + (t[n] * Weight(n)) * Weight(|s|);
        { DistributeRight(Val(t'), t[n] * Weight(n), Weight(|s|)); }
        Val(s) + (Val(t') + t[n] * Weight(n)) * Weight(|s|);
      }
    }
  }

  lemma DistributeRight(x: int, y: int, k: int)
    ensures (x + y) * k == x * k + y * k
    ensures (x - y) * k == x * k - y * k
  {
  }

  lemma ValSplit(s: seq<bigit>, i: nat)
    requires i <= |s|
    ensures Val(s) == Val(s[..i]) + Val(s[i..]) * Weight(i)
  {
    assert s == s[..i] + s[i..];
    ValConcat(s[..i], s[i..]);
  }

  lemma ValUpdate(s: seq<bigit>, i: nat, x: bigit)
    requires i < |s|
    ensures Val(s[i := x]) == Val(s) + (x - s[i]) * Weight(i)
  {
    var u := s[i := x];
    ValSplit(s, i + 1);
    ValSplit(u, i + 1);
    ValTake(s, i);
    ValTake(u, i);
    assert u[..i] == s[..i] && u[i + 1..] == s[i + 1..];
    DistributeRight(x, s[i], Weight(i));
  }

  function Zeros(n: nat): (s: seq<bigit>)
    ensures |s| == n && forall i :: 0 <= i < n ==> s[i] == 0
  {
    seq(n, _ => 0)
  }

  lemma {:induction false} ValOfZeros(s: seq<bigit>)
    requires forall i :: 0 <= i < |s| ==> s[i] == 0
    ensures Val(s) == 0
  {
    if |s| > 0 { ValOfZeros(s[..|s| - 1]); }
  }

  lemma {:induction false} ZeroVal(s: seq<bigit>)
    requires Val(s) == 0
    ensures forall i :: 0 <= i < |s| ==> s[i] == 0
  {
    if |s| > 0 {
      var n := |s| - 1;
      if s[n] != 0 { ValTop(s); assert false; }
      ZeroVal(s[..n]);
    }
  }

  // ----- Bigits at an exponent ----------------------------------------------

  // The number s * 2^(32 exp).
  function Value(s: seq<bigit>, exp: nat): (r: nat)
  {
    MulPositive(Val(s), Weight(exp));
    Val(s) * Weight(exp)
  }

  // The bigit at absolute position pos, zero outside of s.
  function BigitAt(s: seq<bigit>, exp: nat, pos: int): bigit
  {
    if exp <= pos < exp + |s| then s[pos - exp] else 0
  }

  // The part of the number below position pos.
  function Below(s: seq<bigit>, exp: nat, pos: nat): (r: nat)
  {
    if pos == 0 then 0
    else
      MulPositive(BigitAt(s, exp, pos - 1), Weight(pos - 1));
      Below(s, exp, pos - 1) + BigitAt(s, exp, pos - 1) * Weight(pos - 1)
  }

  lemma {:induction false} BelowBound(s: seq<bigit>, exp: nat, pos: nat)
    ensures Below(s, exp, pos) < Weight(pos)
  {
    if pos > 0 {
      BelowBound(s, exp, pos - 1);
      var d := BigitAt(s, exp, pos - 1);
      MulLe(d + 1, BASE, Weight(pos - 1));
      assert (d + 1) * Weight(pos - 1) == d * Weight(pos - 1) + Weight(pos - 1);
    }
  }

  lemma {:induction false} BelowExp(s: seq<bigit>, exp: nat, pos: nat)
    requires pos <= exp
    ensures Below(s, exp, pos) == 0
  {
    if pos > 0 { BelowExp(s, exp, pos - 1); }
  }

  lemma {:induction false} BelowIsTake(s: seq<bigit>, exp: nat, n: nat)
    requires n <= |s|
    ensures Below(s, exp, exp + n) == Val(s[..n]) * Weight(exp)
  {
    if n == 0 {
      BelowExp(s, exp, exp);
    } else {
      BelowIsTake(s, exp, n - 1);
      ValTake(s, n - 1);
      WeightAdd(n - 1, exp);
      MulAssoc(s[n - 1], Weight(n - 1), Weight(exp));
      DistributeRight(Val(s[..n - 1]), s[n - 1] * Weight(n - 1), Weight(exp));
      assert exp + n - 1 == n - 1 + exp;
    }
  }

  lemma {:induction false} BelowAll(s: seq<bigit>, exp: nat, pos: nat)
    requires exp + |s| <= pos
    ensures Below(s, exp, pos) == Value(s, exp)
    decreases pos
  {
    if pos == exp + |s| {
      BelowIsTake(s, exp, |s|);
      assert s[..|s|] == s;
    } else {
      BelowAll(s, exp, pos - 1);
    }
  }

  lemma ValueBound(s: seq<bigit>, exp: nat)
    ensures Value(s, exp) < Weight(exp + |s|)
  {
    BelowAll(s, exp, exp + |s|);
    BelowBound(s, exp, exp + |s|);
  }

  lemma ValueTop(s: seq<bigit>, exp: nat)
    requires |s| > 0 && s[|s| - 1] != 0
    ensures Value(s, exp) >= Weight(exp + |s| - 1)
  {
    ValTop(s);
    MulLe(Weight(|s| - 1), Val(s), Weight(exp));
    WeightAdd(|s| - 1, exp);
  }

  // Prepending zeros while lowering the exponent keeps the number.
  lemma ValuePad(s: seq<bigit>, z: seq<bigit>, exp: nat)
    requires forall i :: 0 <= i < |z| ==> z[i] == 0
    ensures Value(z + s, exp) == Value(s, exp + |z|)
  {
    ValConcat(z, s);
    ValOfZeros(z);
    WeightAdd(|z|, exp);
    MulAssoc(Val(s), Weight(|z|), Weight(exp));
  }
}
