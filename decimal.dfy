/** Decimal rendering of natural numbers, as Python's `str` (and an
    f-string field) writes an `int`: digits only, no sign, no leading zero. */
module Decimal {

  predicate IsDigits(s: string)
  {
    forall i :: 0 <= i < |s| ==> '0' <= s[i] <= '9'
  }

  function DigitChar(d: nat): (c: char)
    requires d < 10
    ensures '0' <= c <= '9'
    ensures c as int - '0' as int == d
  {
    ('0' as int + d) as char
  }

  /** `str(n)` for a non-negative `n`. */
  function NatToString(n: nat): (s: string)
    ensures |s| > 0 && IsDigits(s)
    ensures |s| > 1 ==> s[0] != '0'
    decreases n
  {
    if n < 10 then [DigitChar(n)] else NatToString(n / 10) + [DigitChar(n % 10)]
  }

  /** The value of a string of decimal digits. */
  function StringToNat(s: string): nat
    requires IsDigits(s)
    decreases |s|
  {
    if s == [] then 0
    else StringToNat(s[..|s| - 1]) * 10 + (s[|s| - 1] as int - '0' as int)
  }

  /** Reading back a rendered number gives the number. */
  lemma {:induction false} StringToNatInverts(n: nat)
    ensures StringToNat(NatToString(n)) == n
    decreases n
  {
    if n >= 10 {
      StringToNatInverts(n / 10);
      var s := NatToString(n);
      assert s[..|s| - 1] == NatToString(n / 10);
    }
  }

  /** Different numbers are rendered differently. */
  lemma NatToStringInjective(a: nat, b: nat)
    ensures NatToString(a) == NatToString(b) <==> a == b
  {
    StringToNatInverts(a);
    StringToNatInverts(b);
  }
}
