/** How a rate is shown (gateway/frontend/src/audioFigures.ts), over the reals. */
module RateFormat {
  import opened Decimal

  const ALLOWANCE := 0.000000001

  function DigitsFor(rate: real): nat {
    if rate < 10.0 then 2 else 1
  }

  function Scale(rate: real): (s: real)
    ensures s == if rate < 10.0 then 100.0 else 10.0
  {
    if DigitsFor(rate) == 2 then 100.0 else 10.0
  }

  /** The shown figure in hundredths, or tenths from 10 on. */
  function Units(rate: real): int {
    (rate * Scale(rate) + ALLOWANCE).Floor
  }

  function Cut(rate: real): real {
    Units(rate) as real / Scale(rate)
  }

  function Sign(neg: bool): string {
    if neg then "-" else ""
  }

  /** `toFixed` of a figure that is a whole number of its last digit; `p` is 10^digits. */
  function ToFixed(units: int, digits: nat): string {
    var n := if units < 0 then -units else units;
    var p := if digits == 2 then 100 else 10;
    Sign(units < 0) + ToDecimal(n / p) + "." + PadStart(ToDecimal(n % p), digits)
  }

  /** The figure as shown: a second decimal that is zero is left out. */
  function Shown(units: int, digits: nat): string {
    var text := ToFixed(units, digits);
    if digits == 2 && text != [] && text[|text| - 1] == '0' then text[..|text| - 1] else text
  }

  function Figure(rate: real): string {
    Shown(Units(rate), DigitsFor(rate))
  }

  /** `formatRateX`. */
  function FormatRateX(rate: real): string {
    Figure(rate) + "×"
  }

  // ---------- what the text says ----------

  function Fraction(a: string, b: string): real
    requires AllDigits(a) && AllDigits(b)
  {
    ReadDecimal(a) as real + ReadDecimal(b) as real / Pow10(|b|) as real
  }

  /** `s` is the number with digits `a` before and `b` after the point. */
  predicate Parts(s: string, neg: bool, a: string, b: string) {
    && a != [] && b != [] && AllDigits(a) && AllDigits(b)
    && s == Sign(neg) + a + "." + b
  }

  ghost predicate Spells(s: string, v: real) {
    exists neg, a, b :: Parts(s, neg, a, b) && v == if neg then -Fraction(a, b) else Fraction(a, b)
  }

  /** A text spells at most one number. */
  lemma SpellsOne(s: string, v: real, w: real)
    ensures Spells(s, v) && Spells(s, w) ==> v == w
  {
    if Spells(s, v) && Spells(s, w) {
      var neg, a, b :| Parts(s, neg, a, b) && v == if neg then -Fraction(a, b) else Fraction(a, b);
      var neg', a', b' :| Parts(s, neg', a', b') && w == if neg' then -Fraction(a', b') else Fraction(a', b');
      OneReading(s, neg, a, b, neg', a', b');
    }
  }

  lemma OneReading(s: string, neg: bool, a: string, b: string, neg': bool, a': string, b': string)
    requires Parts(s, neg, a, b) && Parts(s, neg', a', b')
    ensures neg == neg' && a == a' && b == b'
  {
    FirstCharacter(s, neg, a, b);
    FirstCharacter(s, neg', a', b');
    var t := if neg then s[1..] else s;
    assert t == a + "." + b;
    assert t == a' + "." + b';
    OnePoint(t, a, b, a', b');
  }

  lemma FirstCharacter(s: string, neg: bool, a: string, b: string)
    requires Parts(s, neg, a, b)
    ensures neg <==> s[0] == '-'
    ensures (if neg then s[1..] else s) == a + "." + b
  {
  }

  /** There is one point to split at. */
  lemma OnePoint(t: string, a: string, b: string, a': string, b': string)
    requires AllDigits(a) && AllDigits(a') && t == a + "." + b && t == a' + "." + b'
    ensures a == a' && b == b'
  {
    PointAt(t, a, b);
    PointAt(t, a', b');
  }

  lemma PointAt(t: string, a: string, b: string)
    requires t == a + "." + b
    ensures |a| < |t| && t[|a|] == '.' && t[..|a|] == a && t[|a| + 1..] == b
  {
  }

  // ---------- the text shows the figure ----------

  lemma {:induction false} AppendReads(a: string, c: char)
    requires AllDigits(a) && '0' <= c <= '9'
    ensures AllDigits(a + [c]) && ReadDecimal(a + [c]) == 10 * ReadDecimal(a) + (c as int - '0' as int)
  {
  }

  /** Any number has its digits. */
  lemma {:induction false} NaturalReads(n: nat)
    ensures AllDigits(ToDecimal(n)) && ReadDecimal(ToDecimal(n)) == n
  {
    if n < 10 {
    } else {
      NaturalReads(n / 10);
      AppendReads(ToDecimal(n / 10), DigitChar(n % 10));
    }
  }

  lemma FractionDigits(n: nat, digits: nat)
    requires digits == 1 || digits == 2
    requires n < if digits == 2 then 100 else 10
    ensures var b := PadStart(ToDecimal(n), digits); |b| == digits && AllDigits(b) && ReadDecimal(b) == n
  {
    assert Pow10(1) == 10 && Pow10(2) == 100;
    DecimalReads(n, digits);
    PadReads(ToDecimal(n), digits);
  }

  /** `toFixed` writes the figure down. */
  lemma FixedParts(units: int, digits: nat) returns (a: string, b: string)
    requires digits == 1 || digits == 2
    ensures Parts(ToFixed(units, digits), units < 0, a, b) && |b| == digits
    ensures var n, p := if units < 0 then -units else units, if digits == 2 then 100 else 10;
      ReadDecimal(a) == n / p && ReadDecimal(b) == n % p
  {
    var n, p := if units < 0 then -units else units, if digits == 2 then 100 else 10;
    a, b := ToDecimal(n / p), PadStart(ToDecimal(n % p), digits);
    NaturalReads(n / p);
    FractionDigits(n % p, digits);
  }

  lemma FixedSpells(units: int, digits: nat)
    requires digits == 1 || digits == 2
    ensures Spells(ToFixed(units, digits), units as real / if digits == 2 then 100.0 else 10.0)
  {
    var a, b := FixedParts(units, digits);
    assert Pow10(1) == 10 && Pow10(2) == 100;
    var n := if units < 0 then -units else units;
    assert Fraction(a, b) == n as real / if digits == 2 then 100.0 else 10.0 by {
      if digits == 2 {
        assert n == 100 * (n / 100) + n % 100;
      } else {
        assert n == 10 * (n / 10) + n % 10;
      }
    }
  }

  /** Dropping the trailing zero of two decimals keeps the number. */
  lemma DroppedZeroSpells(units: int)
    requires var text := ToFixed(units, 2); text != [] && text[|text| - 1] == '0'
    ensures var text := ToFixed(units, 2); Spells(text[..|text| - 1], units as real / 100.0)
  {
    var text := ToFixed(units, 2);
    var a, b := FixedParts(units, 2);
    var c := b[..1];
    assert b == c + [b[1]] && text[|text| - 1] == b[1];
    AppendReads(c, b[1]);
    assert text[..|text| - 1] == Sign(units < 0) + a + "." + c;
    assert Parts(text[..|text| - 1], units < 0, a, c);
    assert Pow10(1) == 10;
    var n := if units < 0 then -units else units;
    assert n == 100 * ReadDecimal(a) + 10 * ReadDecimal(c);
    assert Fraction(a, c) == n as real / 100.0;
  }

  lemma ShownSpells(units: int, digits: nat)
    requires digits == 1 || digits == 2
    ensures Spells(Shown(units, digits), units as real / if digits == 2 then 100.0 else 10.0)
  {
    var text := ToFixed(units, digits);
    if digits == 2 && text != [] && text[|text| - 1] == '0' {
      DroppedZeroSpells(units);
    } else {
      FixedSpells(units, digits);
    }
  }

  /** What is shown, read as a number, is the cut figure, trailing zero or not. */
  lemma ShowsTheCut(rate: real)
    ensures Spells(Figure(rate), Cut(rate)) && FormatRateX(rate) == Figure(rate) + "×"
  {
    ShownSpells(Units(rate), DigitsFor(rate));
  }

  lemma {:induction false} NoLeadingZero(n: nat)
    ensures |ToDecimal(n)| == 1 || ToDecimal(n)[0] != '0'
  {
    if n < 10 {
    } else {
      NoLeadingZero(n / 10);
      if |ToDecimal(n / 10)| == 1 {
        SingleDigit(n / 10);
      }
    }
  }

  lemma SingleDigit(n: nat)
    requires n > 0 && |ToDecimal(n)| == 1
    ensures ToDecimal(n)[0] != '0'
  {
  }

  lemma FixedLeads(units: int, digits: nat) returns (a: string, b: string)
    requires digits == 1 || digits == 2
    ensures Parts(ToFixed(units, digits), units < 0, a, b) && |b| == digits && (|a| == 1 || a[0] != '0')
    ensures ReadDecimal(b) == (if units < 0 then -units else units) % (if digits == 2 then 100 else 10)
  {
    var n, p := if units < 0 then -units else units, if digits == 2 then 100 else 10;
    a, b := ToDecimal(n / p), PadStart(ToDecimal(n % p), digits);
    NaturalReads(n / p);
    NoLeadingZero(n / p);
    FractionDigits(n % p, digits);
  }

  lemma ShownParts(units: int, digits: nat) returns (a: string, b: string)
    requires digits == 1 || digits == 2
    ensures Parts(Shown(units, digits), units < 0, a, b) && (|a| == 1 || a[0] != '0')
    ensures |b| == if digits == 2 && units % 10 != 0 then 2 else 1
  {
    a, b := FixedLeads(units, digits);
    if digits == 2 {
      LastDecimal(b, units);
      b := DropsZero(units, a, b);
    }
  }

  lemma DropsZero(units: int, a: string, b: string) returns (c: string)
    requires Parts(ToFixed(units, 2), units < 0, a, b) && |b| == 2
    ensures Parts(Shown(units, 2), units < 0, a, c) && |c| == if b[1] == '0' then 1 else 2
  {
    var text := ToFixed(units, 2);
    assert text[|text| - 1] == b[1];
    c := if b[1] == '0' then b[..1] else b;
    assert b[1] == '0' ==> text[..|text| - 1] == Sign(units < 0) + a + "." + c;
  }

  lemma LastDecimal(b: string, units: int)
    requires |b| == 2 && AllDigits(b) && ReadDecimal(b) == (if units < 0 then -units else units) % 100
    ensures b[1] == '0' <==> units % 10 == 0
  {
    var d := b[1] as int - '0' as int;
    assert ReadDecimal(b) == 10 * ReadDecimal(b[..1]) + d;
    LastDigit(units, ReadDecimal(b[..1]), d);
  }

  lemma LastDigit(units: int, q: nat, d: nat)
    requires d < 10 && 10 * q + d == (if units < 0 then -units else units) % 100
    ensures d == 0 <==> units % 10 == 0
  {
    var n := if units < 0 then -units else units;
    var h := n / 100;
    assert n == 100 * h + (10 * q + d);
    if units < 0 {
      TensAndOnes(units, -(10 * h + q), 0 - d);
    } else {
      TensAndOnes(units, 10 * h + q, d);
    }
  }

  lemma TensAndOnes(x: int, m: int, d: int)
    requires x == 10 * m + d && -10 < d < 10
    ensures x % 10 == 0 <==> d == 0
  {
  }

  /** How many decimals are shown: below 10 two, unless the second would be a zero, and then, as from
      10 on, one.  There is no leading zero but the one before the point, and a sign exactly for a
      figure below zero. */
  lemma ShowsDecimals(rate: real) returns (a: string, b: string)
    ensures Parts(Figure(rate), Cut(rate) < 0.0, a, b) && (|a| == 1 || a[0] != '0')
    ensures |b| == if rate < 10.0 && Units(rate) % 10 != 0 then 2 else 1
  {
    a, b := ShownParts(Units(rate), DigitsFor(rate));
  }

  // ---------- cut, not rounded ----------

  lemma CutBounds(rate: real)
    ensures rate - 1.0 / Scale(rate) < Cut(rate) <= rate + 0.000000001 / Scale(rate)
  {
  }

  /** A higher rate never shows a lower figure, also across the change of precision at 10. */
  lemma CutIsMonotone(lo: real, hi: real)
    requires lo <= hi
    ensures Cut(lo) <= Cut(hi)
  {
    FloorIsMonotone(lo * Scale(lo) + ALLOWANCE, hi * Scale(lo) + ALLOWANCE);
    if lo < 10.0 <= hi {
      FloorIsMonotone(lo * 100.0 + ALLOWANCE, 1000.5);
      FloorIsMonotone(100.0, hi * 10.0 + ALLOWANCE);
      assert Units(lo) <= 1000 && 100 <= Units(hi);
    }
  }

  lemma FloorIsMonotone(x: real, y: real)
    requires x <= y
    ensures x.Floor <= y.Floor
  {
  }

  /** Below 10 a gate of two decimals is shown as reached exactly from an allowance below it. */
  lemma GateReachedExactly(rate: real, hundredths: int)
    requires rate < 10.0
    ensures Cut(rate) >= hundredths as real / 100.0 <==> rate >= hundredths as real / 100.0 - 0.00000000001
  {
    var x := rate * 100.0 + ALLOWANCE;
    assert x.Floor >= hundredths <==> x >= hundredths as real;
  }

  /** A figure above the measured one is shown exactly when the rate is within the allowance of
      the next figure: it is not true that this never happens. */
  lemma ShownAboveExactly(rate: real)
    ensures var x := rate * Scale(rate);
      Cut(rate) > rate <==> (x.Floor + 1) as real - x <= 0.000000001
  {
    var s := Scale(rate);
    var x := rate * s;
    var u := Units(rate);
    if (x.Floor + 1) as real - x <= ALLOWANCE {
      assert u >= x.Floor + 1;
    } else {
      assert u == x.Floor;
    }
    assert Cut(rate) > rate <==> u as real > x;
  }

  /** Such a rate: it misses the default gate of 1.2 and reads 1.2. */
  lemma GateMissedButShown()
    ensures var rate := 1.199999999995; rate < 1.2 && Cut(rate) == 1.2
  {
  }
}
