/** Decimal numerals as JavaScript prints non-negative integers: array indexes
    (`node["0"]`), integer literals and URL expiries all go through them. */
module Decimals {
  predicate IsDigit(c: char) { '0' <= c <= '9' }

  function Digit(d: nat): (c: char)
    requires d < 10
    ensures IsDigit(c) && c as int - '0' as int == d
  {
    ('0' as int + d) as char
  }

  /** `String(n)` for a non-negative integer. */
  function Dec(n: nat): string {
    if n < 10 then [Digit(n)] else Dec(n / 10) + [Digit(n % 10)]
  }

  predicate AllDigits(s: string) { |s| > 0 && forall i | 0 <= i < |s| :: IsDigit(s[i]) }

  /** `Number(s)` for a string of decimal digits. */
  function Val(s: string): nat
    requires AllDigits(s)
  {
    var d := s[|s| - 1] as int - '0' as int;
    if |s| == 1 then d else Val(s[..|s| - 1]) * 10 + d
  }

  /** No leading zero, except for "0" itself. */
  predicate Canonical(s: string) { AllDigits(s) && (|s| == 1 || s[0] != '0') }

  lemma {:induction false} DecCanonical(n: nat)
    ensures Canonical(Dec(n)) && Val(Dec(n)) == n && (Dec(n)[0] == '0' <==> n == 0)
  {
    if n >= 10 {
      DecCanonical(n / 10);
      assert Dec(n)[..|Dec(n)| - 1] == Dec(n / 10);
    }
  }

  lemma {:induction false} DecOfVal(s: string)
    requires Canonical(s)
    ensures Dec(Val(s)) == s && (Val(s) == 0 <==> s == "0")
  {
    if |s| > 1 {
      var p := s[..|s| - 1];
      DecOfVal(p);
      assert s == p + [s[|s| - 1]];
      assert Val(p) > 0 && Val(s) / 10 == Val(p);
    }
  }

  lemma DecInjective(m: nat, n: nat)
    requires Dec(m) == Dec(n)
    ensures m == n
  {
    DecCanonical(m);
    DecCanonical(n);
  }

  function Pow10(k: nat): nat { if k == 0 then 1 else 10 * Pow10(k - 1) }

  lemma {:induction false} ValBound(s: string)
    requires AllDigits(s)
    ensures Val(s) < Pow10(|s|)
  {
    if |s| > 1 { ValBound(s[..|s| - 1]); }
  }

  lemma {:induction false} Pow10Monotone(j: nat, k: nat)
    requires j <= k
    ensures Pow10(j) <= Pow10(k)
    decreases k - j
  {
    if j < k { Pow10Monotone(j + 1, k); }
  }
}
