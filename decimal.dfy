/** Decimal renderings of natural numbers, as std::to_string and str give them. */
module Decimal {

  /** Decimal rendering of a natural number, as `std::to_string` and `str` give it. */
  function NatToString(n: nat): (s: string)
    ensures |s| > 0
    ensures forall k :: 0 <= k < |s| ==> '0' <= s[k] <= '9'
    decreases n
  {
    if n < 10 then [('0' as int + n) as char]
    else NatToString(n / 10) + [('0' as int + n % 10) as char]
  }

  /** 10 to the power k. */
  function Pow10(k: nat): (p: nat)
    ensures p > 0
  {
    if k == 0 then 1 else 10 * Pow10(k - 1)
  }

  /** Value of a decimal digit string; the inverse of NatToString. A string of k digits stays below 10^k. */
  function ParseNat(s: string): (n: nat)
    ensures n < Pow10(|s|)
  {
    if s == [] then 0
    else
      var p := ParseNat(s[..|s| - 1]);
      assert p * 10 <= (Pow10(|s| - 1) - 1) * 10;
      p * 10 + (s[|s| - 1] as int - '0' as int) % 10
  }

  /** Parsing a rendering gives the number back. */
  lemma {:induction false} ParseNatToString(n: nat)
    ensures ParseNat(NatToString(n)) == n
    decreases n
  {
    var s := NatToString(n);
    if n >= 10 {
      assert s[..|s| - 1] == NatToString(n / 10);
      ParseNatToString(n / 10);
    }
  }

  /** Different numbers have different renderings. */
  lemma NatToStringInjective(a: nat, b: nat)
    ensures NatToString(a) == NatToString(b) ==> a == b
  {
    ParseNatToString(a);
    ParseNatToString(b);
  }
}
