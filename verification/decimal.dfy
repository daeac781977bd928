/**
  The decimal text of a number, as `toString()` renders a non-negative
  integer. The page compares tab ids as text; since the rendering is
  injective, comparing the numbers instead decides the same thing.
 */
module Decimal {

  function DigitChar(d: nat): (c: char)
    requires d < 10
    ensures '0' <= c <= '9'
  {
    (48 + d) as char
  }

  function ToDecimal(n: nat): (s: string)
    ensures 1 <= |s|
    ensures forall i :: 0 <= i < |s| ==> '0' <= s[i] <= '9'
    ensures s[|s| - 1] == DigitChar(n % 10)
    ensures (|s| == 1) == (n < 10)
  {
    if n < 10 then [DigitChar(n)] else ToDecimal(n / 10) + [DigitChar(n % 10)]
  }

  /** Two numbers render to the same text exactly when they are equal. */
  lemma {:induction false} ToDecimalInjective(a: nat, b: nat)
    ensures ToDecimal(a) == ToDecimal(b) <==> a == b
  {
    if ToDecimal(a) == ToDecimal(b) && a >= 10 && b >= 10 {
      var sa, sb := ToDecimal(a), ToDecimal(b);
      assert sa == ToDecimal(a / 10) + [DigitChar(a % 10)];
      assert sb == ToDecimal(b / 10) + [DigitChar(b % 10)];
      assert ToDecimal(a / 10) == sa[..|sa| - 1];
      assert ToDecimal(b / 10) == sb[..|sb| - 1];
      ToDecimalInjective(a / 10, b / 10);
      assert a % 10 == b % 10;
    }
  }
}
