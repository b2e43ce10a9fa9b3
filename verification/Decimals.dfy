/** Decimal rendering of naturals, and why it makes derived row keys unambiguous. */
module Decimals {

  function Digit(d: nat): (c: char)
    requires d < 10
    ensures '0' <= c <= '9'
  {
    '0' + d as char
  }

  /** What String(n) prints for a natural number. */
  function Decimal(n: nat): (s: string)
    ensures |s| > 0 && forall i :: 0 <= i < |s| ==> '0' <= s[i] <= '9'
  {
    if n < 10 then [Digit(n)] else Decimal(n / 10) + [Digit(n % 10)]
  }

  lemma {:induction false} DecimalInjective(m: nat, n: nat)
    requires Decimal(m) == Decimal(n)
    ensures m == n
  {
    var s, t := Decimal(m), Decimal(n);
    assert s[|s| - 1] == t[|t| - 1];
    if m < 10 && n < 10 {
    } else if m >= 10 && n >= 10 {
      assert s[..|s| - 1] == Decimal(m / 10);
      assert t[..|t| - 1] == Decimal(n / 10);
      DecimalInjective(m / 10, n / 10);
    }
  }

  /** A posting id and an index can be read back from the key: the index has no underscore. */
  lemma SuffixedInjective(p: string, i: nat, q: string, j: nat)
    ensures p + "_" + Decimal(i) == q + "_" + Decimal(j) <==> p == q && i == j
  {
    var a, b := p + "_" + Decimal(i), q + "_" + Decimal(j);
    if a == b {
      assert a[|p|] == b[|p|] && a[|q|] == b[|q|];
      assert |p| == |q|;
      assert p == a[..|p|] && q == b[..|q|];
      assert Decimal(i) == a[|p| + 1..] && Decimal(j) == b[|q| + 1..];
      DecimalInjective(i, j);
    }
  }
}
