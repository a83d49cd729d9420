/**
  Decimal text: the digit strings that BigInteger parses and prints.
  `DecVal` reads a digit string as a natural number, most significant digit
  first; `DecimalText` writes a natural number as its canonical numeral.
 */
module Decimal {
  import opened Limbs

  predicate IsDigit(c: char) {
    '0' <= c <= '9'
  }

  predicate AllDigits(s: string) {
    forall i :: 0 <= i < |s| ==> IsDigit(s[i])
  }

  /** A numeral without superfluous leading zeros: "0", or a non-zero first digit. */
  predicate IsNumeral(s: string) {
    AllDigits(s) && |s| >= 1 && (s[0] == '0' ==> |s| == 1)
  }

  /** The value of one digit character, `c - '0'` in the source. */
  function DigitVal(c: char): (d: nat)
    requires IsDigit(c)
    ensures d < 10
  {
    (c as int) - ('0' as int)
  }

  function DigitChar(d: nat): (c: char)
    requires d < 10
    ensures IsDigit(c) && DigitVal(c) == d
  {
    (('0' as int) + d) as char
  }

  /** The number a digit string denotes; it stays below 10^|s|. */
  function DecVal(s: string): (n: nat)
    requires AllDigits(s)
    ensures n < Pow10(|s|)
  {
    if s == [] then 0 else DecVal(s[..|s| - 1]) * 10 + DigitVal(s[|s| - 1])
  }

  lemma {:induction false} DecValAppend(p: string, q: string)
    requires AllDigits(p) && AllDigits(q)
    ensures AllDigits(p + q)
    ensures DecVal(p + q) == DecVal(p) * Pow10(|q|) + DecVal(q)
    decreases |q|
  {
    if q == [] {
      assert p + q == p;
    } else {
      var q' := q[..|q| - 1];
      DecValAppend(p, q');
      var a, b, e, t := DecVal(p), DecVal(q'), Pow10(|q'|), DigitVal(q[|q| - 1]);
      assert DecVal(p + q) == DecVal(p + q') * 10 + t by {
        assert (p + q)[..|p + q| - 1] == p + q';
      }
      assert DecVal(q) == b * 10 + t;
      assert Pow10(|q|) == 10 * e;
      ShiftArith(a, e, b, t);
    }
  }

  lemma {:induction false} ShiftArith(a: int, e: int, b: int, t: int)
    ensures (a * e + b) * 10 + t == a * (10 * e) + (b * 10 + t)
  {
  }

  /** The canonical numeral of n: "0" for zero, otherwise no leading zero. */
  function DecimalText(n: nat): (s: string)
    ensures IsNumeral(s) && DecVal(s) == n
  {
    if n < 10 then [DigitChar(n)]
    else
      var p := DecimalText(n / 10);
      assert (p + [DigitChar(n % 10)])[..|p|] == p;
      p + [DigitChar(n % 10)]
  }

  /** A numeral is the canonical text of its own value. */
  lemma {:induction false} DecimalTextOfNumeral(s: string)
    requires IsNumeral(s)
    ensures DecimalText(DecVal(s)) == s
    decreases |s|
  {
    if |s| > 1 {
      var p := s[..|s| - 1];
      NumeralLowerBound(s);
      DecimalTextOfNumeral(p);
      assert s == p + [s[|s| - 1]];
    }
  }

  /** A numeral of two or more digits denotes at least 10. */
  lemma {:induction false} NumeralLowerBound(s: string)
    requires IsNumeral(s) && |s| > 1
    ensures IsNumeral(s[..|s| - 1]) && DecVal(s) >= 10
    decreases |s|
  {
    var p := s[..|s| - 1];
    if |p| > 1 {
      NumeralLowerBound(p);
    } else {
      assert DecVal(p) == DigitVal(s[0]);
    }
  }

  /** Appending one digit to the numeral of a non-zero m. */
  lemma {:induction false} DecimalTextShift(m: nat, d: nat)
    requires m >= 1 && d < 10
    ensures DecimalText(m * 10 + d) == DecimalText(m) + [DigitChar(d)]
  {
    var n := m * 10 + d;
    assert n / 10 == m && n % 10 == d;
  }

  /** A limb printed with `setw(4)` and `setfill('0')`: exactly four digits. */
  function Pad4(d: nat): (s: string)
    requires d < Base
    ensures |s| == BaseDigits && AllDigits(s) && DecVal(s) == d
  {
    FourDigitsVal(d / 1000, d / 100 % 10, d / 10 % 10, d % 10);
    LimbDigits(0, d);
    [DigitChar(d / 1000), DigitChar(d / 100 % 10), DigitChar(d / 10 % 10), DigitChar(d % 10)]
  }

  /** Four digit characters denote the number they spell. */
  lemma {:induction false} FourDigitsVal(c0: nat, c1: nat, c2: nat, c3: nat)
    requires c0 < 10 && c1 < 10 && c2 < 10 && c3 < 10
    ensures AllDigits([DigitChar(c0), DigitChar(c1), DigitChar(c2), DigitChar(c3)])
    ensures DecVal([DigitChar(c0), DigitChar(c1), DigitChar(c2), DigitChar(c3)]) == ((c0 * 10 + c1) * 10 + c2) * 10 + c3
  {
    var s := [DigitChar(c0), DigitChar(c1), DigitChar(c2), DigitChar(c3)];
    assert DecVal(s[..1]) == c0 by {
      assert s[..1][..0] == [];
    }
    assert DecVal(s[..2]) == c0 * 10 + c1 by {
      assert s[..2][..1] == s[..1];
    }
    assert DecVal(s[..3]) == (c0 * 10 + c1) * 10 + c2 by {
      assert s[..3][..2] == s[..2];
    }
    assert s[..4] == s;
  }

  lemma {:induction false} DigitSplit(n: nat)
    ensures n == n / 10 * 10 + n % 10
    ensures n / 100 == n / 10 / 10 && n / 1000 == n / 100 / 10
  {
  }

  lemma {:induction false} LimbDigits(m: int, d: nat)
    ensures m * 10000 + d == (((m * 10 + d / 1000) * 10 + d / 100 % 10) * 10 + d / 10 % 10) * 10 + d % 10
  {
    DigitSplit(d);
    DigitSplit(d / 10);
    DigitSplit(d / 100);
  }

  /** Appending four digits to the numeral of a non-zero m. */
  lemma {:induction false} DecimalTextShift4(m: nat, c0: nat, c1: nat, c2: nat, c3: nat)
    requires m >= 1 && c0 < 10 && c1 < 10 && c2 < 10 && c3 < 10
    ensures DecimalText((((m * 10 + c0) * 10 + c1) * 10 + c2) * 10 + c3)
         == DecimalText(m) + [DigitChar(c0), DigitChar(c1), DigitChar(c2), DigitChar(c3)]
  {
    var m1 := m * 10 + c0;
    var m2 := m1 * 10 + c1;
    var m3 := m2 * 10 + c2;
    DecimalTextShift(m, c0);
    DecimalTextShift(m1, c1);
    DecimalTextShift(m2, c2);
    DecimalTextShift(m3, c3);
  }

  /** Appending one zero-padded limb to the numeral of a non-zero m. */
  lemma {:induction false} DecimalTextShiftLimb(m: nat, d: nat)
    requires m >= 1 && d < Base
    ensures DecimalText(m * Base + d) == DecimalText(m) + Pad4(d)
  {
    LimbDigits(m, d);
    DecimalTextShift4(m, d / 1000, d / 100 % 10, d / 10 % 10, d % 10);
  }

  /** The numeral of n has at most k digits exactly when n < 10^k. */
  lemma {:induction false} DecimalLengthBound(n: nat, k: nat)
    requires k >= 1
    ensures |DecimalText(n)| <= k <==> n < Pow10(k)
    decreases n
  {
    if n >= 10 {
      if k == 1 {
        assert |DecimalText(n / 10)| >= 1;
      } else {
        DecimalLengthBound(n / 10, k - 1);
        assert Pow10(k) == 10 * Pow10(k - 1);
      }
    } else {
      Pow10Monotonic(1, k);
    }
  }
}
