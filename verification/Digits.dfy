// Decimal digit strings and the propagation of a carry through one.
module Digits {
  import opened Powers

  function DigitOf(c: char): int
  {
    c as int - '0' as int
  }

  function ToDigit(d: nat): (c: char)
    requires d <= 10
    ensures DigitOf(c) == d
    ensures d <= 9 ==> IsDigit(c)
  {
    ('0' as int + d) as char
  }

  predicate IsDigit(c: char)
  {
    '0' <= c <= '9'
  }

  predicate AllDigits(s: seq<char>)
  {
    forall i :: 0 <= i < |s| ==> IsDigit(s[i])
  }

  // The number written by s; a character just above '9' counts as ten.
  function DigitsVal(s: seq<char>): int
  {
    if |s| == 0 then 0 else 10 * DigitsVal(s[..|s| - 1]) + DigitOf(s[|s| - 1])
  }

  lemma DigitsPush(s: seq<char>, c: char)
    ensures DigitsVal(s + [c]) == 10 * DigitsVal(s) + DigitOf(c)
  {
    assert (s + [c])[..|s|] == s;
  }

  lemma {:induction false} DigitsNonNegative(s: seq<char>)
    requires AllDigits(s)
    ensures 0 <= DigitsVal(s) < Pow(10, |s|)
  {
    if |s| > 0 { DigitsNonNegative(s[..|s| - 1]); }
  }

  lemma {:induction false} DigitsUpdate(s: seq<char>, i: nat, c: char)
    requires i < |s|
    ensures DigitsVal(s[i := c]) == DigitsVal(s) + (DigitOf(c) - DigitOf(s[i])) * Pow(10, |s| - 1 - i)
  {
    var n := |s| - 1;
    var u := s[i := c];
    var d := DigitOf(c) - DigitOf(s[i]);
    if i == n {
      assert u[..n] == s[..n];
    } else {
      assert u[..n] == s[..n][i := c];
      DigitsUpdate(s[..n], i, c);
      MulAssoc(10, d, Pow(10, n - 1 - i));
      MulAssoc(d, 10, Pow(10, n - 1 - i));
    }
  }

  lemma {:induction false} DigitsOneZeros(s: seq<char>)
    requires |s| > 0 && forall i :: 0 < i < |s| ==> s[i] == '0'
    ensures DigitsVal(s) == DigitOf(s[0]) * Pow(10, |s| - 1)
  {
    if |s| > 1 {
      DigitsOneZeros(s[..|s| - 1]);
      MulAssoc(10, DigitOf(s[0]), Pow(10, |s| - 2));
      MulAssoc(DigitOf(s[0]), 10, Pow(10, |s| - 2));
    }
  }

  // Moving a ten at position i one place up does not change the number.
  lemma CarryStep(s: seq<char>, i: nat)
    requires 0 < i < |s| && s[i] == ':' && IsDigit(s[i - 1])
    ensures DigitsVal(s[i := '0'][i - 1 := ToDigit(DigitOf(s[i - 1]) + 1)]) == DigitsVal(s)
  {
    var t := s[i := '0'];
    DigitsUpdate(s, i, '0');
    DigitsUpdate(t, i - 1, ToDigit(DigitOf(s[i - 1]) + 1));
    assert Pow(10, |s| - i) == 10 * Pow(10, |s| - 1 - i);
    assert DigitOf('0') - DigitOf(':') == -10;
  }

  // Normalizes a digit string whose last character may be a ten. On overflow
  // the digits are a one followed by zeros, and stand for ten times as much.
  method PropagateCarry(buf: seq<char>) returns (out: seq<char>, overflow: bool)
    requires |buf| > 0 && AllDigits(buf[..|buf| - 1]) && '0' <= buf[|buf| - 1] <= ':'
    ensures |out| == |buf| && AllDigits(out)
    ensures DigitsVal(buf) == if overflow then 10 * DigitsVal(out) else DigitsVal(out)
    ensures overflow ==> DigitsVal(out) == Pow(10, |out| - 1)
    ensures overflow ==> out[0] == '1' && forall k :: 0 < k < |out| ==> out[k] == '0'
  {
    hide DigitsVal, Pow;
    out := buf;
    var i := |out| - 1;
    assert forall k :: 0 <= k < i ==> IsDigit(buf[..i][k]);
    while i > 0 && out[i] > '9'
      invariant 0 <= i < |out| == |buf|
      invariant forall k :: 0 <= k < i ==> IsDigit(out[k])
      invariant '0' <= out[i] <= ':'
      invariant forall k :: i < k < |out| ==> out[k] == '0'
      invariant DigitsVal(out) == DigitsVal(buf)
    {
      CarryStep(out, i);
      out := out[i := '0'];
      out := out[i - 1 := ToDigit(DigitOf(out[i - 1]) + 1)];
      i := i - 1;
    }
    overflow := out[0] > '9';
    if overflow {
      DigitsOneZeros(out);
      out := out[0 := '1'];
      DigitsOneZeros(out);
    }
  }

  // Stores the last digit; a ten is carried into the digits before it.
  method AppendRounded(leading: seq<char>, digit: nat) returns (buf: seq<char>, overflow: bool)
    requires AllDigits(leading) && digit <= 10
    ensures |buf| == |leading| + 1 && AllDigits(buf) && 0 <= DigitsVal(buf)
    ensures 10 * DigitsVal(leading) + digit == if overflow then 10 * DigitsVal(buf) else DigitsVal(buf)
    ensures overflow ==> DigitsVal(buf) == Pow(10, |leading|)
  {
    hide DigitsVal, Pow;
    DigitsPush(leading, ToDigit(digit));
    buf := leading + [ToDigit(digit)];
    assert buf[..|leading|] == leading;
    overflow := false;
    if digit == 10 { buf, overflow := PropagateCarry(buf); }
    DigitsNonNegative(buf);
  }
}
