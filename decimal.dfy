/**
 * Decimal digit strings: how a non-negative JavaScript integer is rendered
 * by a template literal or string concatenation, and the value a string of
 * digits denotes. The formatting functions of the timer are stated in
 * these terms.
 */
module Decimal {

  /** 10 to the power n. */
  function Pow10(n: nat): (r: nat)
    ensures r >= 1
  {
    if n == 0 then 1 else 10 * Pow10(n - 1)
  }

  lemma {:induction false} Pow10Monotone(i: nat, j: nat)
    requires i <= j
    ensures Pow10(i) <= Pow10(j)
  {
    if i < j {
      Pow10Monotone(i, j - 1);
    }
  }

  predicate IsDigit(c: char) {
    '0' <= c <= '9'
  }

  predicate AllDigits(s: string) {
    forall i :: 0 <= i < |s| ==> IsDigit(s[i])
  }

  function DigitChar(d: nat): (c: char)
    requires d < 10
    ensures IsDigit(c) && c as int - '0' as int == d
  {
    (d + '0' as int) as char
  }

  /** The number a string of decimal digits denotes (leading zeros allowed). */
  function Value(s: string): nat
    requires AllDigits(s)
  {
    if s == [] then 0 else 10 * Value(s[..|s| - 1]) + (s[|s| - 1] as int - '0' as int)
  }

  /** `k` zero characters. */
  function Zeros(k: nat): (r: string)
    ensures |r| == k && AllDigits(r)
    ensures forall i :: 0 <= i < k ==> r[i] == '0'
  {
    seq(k, _ => '0')
  }

  /**
   * The decimal rendering of a non-negative integer in plain digits (what
   * JavaScript's `String(n)` gives for the integers the timer handles): it
   * denotes n, and has no leading zero unless n is 0.
   */
  function Digits(n: nat): (s: string)
    ensures AllDigits(s) && 1 <= |s|
    ensures Value(s) == n
    ensures n < Pow10(|s|)
    ensures |s| == 1 || Pow10(|s| - 1) <= n
    decreases n
  {
    if n < 10 then [DigitChar(n)]
    else
      var s := Digits(n / 10) + [DigitChar(n % 10)];
      assert s[..|s| - 1] == Digits(n / 10);
      s
  }

  /** A number fits in k digits exactly when its rendering has at most k characters. */
  lemma DigitsFit(n: nat, k: nat)
    requires 1 <= k
    ensures n < Pow10(k) <==> |Digits(n)| <= k
  {
    var d := |Digits(n)|;
    if d <= k {
      Pow10Monotone(d, k);
    } else {
      Pow10Monotone(k, d - 1);
    }
  }

  lemma {:induction false} ValueOfZeros(k: nat)
    ensures Value(Zeros(k)) == 0
  {
    if k > 0 {
      assert Zeros(k)[..k - 1] == Zeros(k - 1);
      ValueOfZeros(k - 1);
    }
  }

  /** Leading zeros do not change the value of a digit string. */
  lemma {:induction false} ValueIgnoresLeadingZeros(k: nat, s: string)
    requires AllDigits(s)
    ensures AllDigits(Zeros(k) + s) && Value(Zeros(k) + s) == Value(s)
    decreases |s|
  {
    var t := Zeros(k) + s;
    if s == [] {
      assert t == Zeros(k);
      ValueOfZeros(k);
    } else {
      assert t[..|t| - 1] == Zeros(k) + s[..|s| - 1];
      ValueIgnoresLeadingZeros(k, s[..|s| - 1]);
    }
  }

  lemma MulAtLeast(x: int, b: int)
    requires x >= 1 && b > 0
    ensures x * b >= b
  {
  }

  /** Euclidean division is unique: a quotient and remainder in range are a / b and a % b. */
  lemma ModOfDecomposition(a: int, b: int, q: int, r: int)
    requires b > 0 && 0 <= r < b && a == q * b + r
    ensures a % b == r && a / b == q
  {
    var q', r' := a / b, a % b;
    var dq := q - q';
    assert dq * b == r' - r;
    if dq >= 1 {
      MulAtLeast(dq, b);
    } else if dq <= -1 {
      MulAtLeast(-dq, b);
    }
  }

  /** Appending a digit d to v, modulo 10p, appends it to v modulo p. */
  lemma ShiftDigit(v: nat, p: nat, d: nat)
    requires p > 0 && d < 10
    ensures (10 * v + d) % (10 * p) == 10 * (v % p) + d
  {
    var q, r := v / p, v % p;
    assert v == q * p + r;
    assert 10 * v + d == q * (10 * p) + (10 * r + d);
    assert 10 * r + d < 10 * p;
    ModOfDecomposition(10 * v + d, 10 * p, q, 10 * r + d);
  }

  /** The last k digits of a digit string denote its value modulo 10^k. */
  lemma {:induction false} ValueOfSuffix(s: string, k: nat)
    requires AllDigits(s) && k <= |s|
    ensures AllDigits(s[|s| - k..]) && Value(s[|s| - k..]) == Value(s) % Pow10(k)
    decreases k
  {
    var n := |s|;
    if k == 0 {
      assert s[n..] == [];
    } else {
      var init := s[..n - 1];
      var t := s[n - k..];
      var d := s[n - 1] as int - '0' as int;
      assert t[..k - 1] == init[|init| - (k - 1)..];
      ValueOfSuffix(init, k - 1);
      var p := Pow10(k - 1);
      var v := Value(init);
      assert Value(t) == 10 * (v % p) + d;
      assert Value(s) == 10 * v + d;
      ShiftDigit(v, p, d);
    }
  }
}
