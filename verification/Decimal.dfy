/** Decimal notation of natural numbers: `toString`, `padStart` and reading back. */
module Decimal {
  function DigitChar(d: nat): (c: char)
    requires d < 10
    ensures '0' <= c <= '9' && c as int - '0' as int == d
  {
    '0' + d as char
  }

  /** `toString` of a natural number. */
  function ToDecimal(n: nat): (s: string)
    ensures s != []
  {
    if n < 10 then [DigitChar(n)] else ToDecimal(n / 10) + [DigitChar(n % 10)]
  }

  /** `padStart(width, "0")`. */
  function PadStart(s: string, width: nat): string
    decreases width - |s|
  {
    if |s| >= width then s else PadStart("0" + s, width)
  }

  predicate AllDigits(s: string) {
    forall i :: 0 <= i < |s| ==> '0' <= s[i] <= '9'
  }

  /** The number a string of digits spells. */
  function ReadDecimal(s: string): nat
    requires AllDigits(s)
  {
    if s == [] then 0 else 10 * ReadDecimal(s[..|s| - 1]) + (s[|s| - 1] as int - '0' as int)
  }

  function Pow10(k: nat): (p: nat)
    ensures p > 0
  {
    if k == 0 then 1 else 10 * Pow10(k - 1)
  }

  lemma {:induction false} DecimalReads(n: nat, k: nat)
    requires 0 < k && n < Pow10(k)
    ensures AllDigits(ToDecimal(n)) && |ToDecimal(n)| <= k && ReadDecimal(ToDecimal(n)) == n
  {
    if n < 10 {
    } else {
      assert k > 1 by { assert Pow10(1) == 10; }
      DecimalReads(n / 10, k - 1);
      var s := ToDecimal(n);
      assert s[..|s| - 1] == ToDecimal(n / 10);
    }
  }

  lemma {:induction false} LeadingZero(s: string)
    requires AllDigits(s)
    ensures AllDigits("0" + s) && ReadDecimal("0" + s) == ReadDecimal(s)
  {
    var t := "0" + s;
    if s == [] {
      assert t[..0] == [];
    } else {
      assert t[..|t| - 1] == "0" + s[..|s| - 1];
      LeadingZero(s[..|s| - 1]);
    }
  }

  lemma {:induction false} PadReads(s: string, width: nat)
    requires AllDigits(s) && |s| <= width
    ensures var t := PadStart(s, width); |t| == width && AllDigits(t) && ReadDecimal(t) == ReadDecimal(s)
    decreases width - |s|
  {
    if |s| == width {
    } else {
      LeadingZero(s);
      PadReads("0" + s, width);
    }
  }
}
