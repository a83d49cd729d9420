/**
  The value model of BigInteger: a sign flag and base-10000 limbs, least
  significant first (big_integer.h:34-38). The functions here are the
  value-producing half of the interface (comparisons, unary minus, the
  results the arithmetic operators must produce, formatting and parsing);
  the loops that compute those results are in BigIntegerOps.
 */
module BigIntegers {
  import opened Limbs
  import opened Decimal

  /** The two failure kinds: BigIntegerOverflow and BigIntegerDivisionByZero. */
  datatype Error = Overflow | DivisionByZero

  datatype Result<T> = Success(value: T) | Failure(error: Error)

  /** Products with more decimal digits than this throw BigIntegerOverflow. */
  const MaxProductDigits: nat := 30009

  datatype BigInt = BigInt(digits: seq<int>, negative: bool)

  /** Limbs in range and no most-significant zero limb; negative zero is allowed. */
  predicate WellFormed(x: BigInt) {
    IsCanonical(x.digits)
  }

  /** The representation invariant: well formed, and zero is never negative. */
  predicate Canonical(x: BigInt) {
    WellFormed(x) && (x.digits == [] ==> !x.negative)
  }

  const Zero: BigInt := BigInt([], false)

  /** What ParseString builds from "-0": an empty digit store marked negative. */
  const NegativeZero: BigInt := BigInt([], true)

  function Magnitude(x: BigInt): nat
    requires AllLimbs(x.digits)
  {
    Val(x.digits)
  }

  /** The abstraction function: (-1 if negative) * sum of digits[i] * 10000^i. */
  function Value(x: BigInt): int
    requires AllLimbs(x.digits)
  {
    if x.negative then -(Magnitude(x) as int) else Magnitude(x)
  }

  /** Two canonical values that denote the same integer are the same value. */
  lemma {:induction false} CanonicalByValue(a: BigInt, b: BigInt)
    requires Canonical(a) && Canonical(b) && Value(a) == Value(b)
    ensures a == b
  {
    ValZeroIffEmpty(a.digits);
    ValZeroIffEmpty(b.digits);
    CanonicalUnique(a.digits, b.digits);
  }

  /** Normalize: strip top zero limbs, then clear the sign of an empty store. */
  function Normalized(x: BigInt): (r: BigInt)
    requires AllLimbs(x.digits)
    ensures Canonical(r) && Value(r) == Value(x)
    ensures r.digits == Trim(x.digits)
  {
    ValTrim(x.digits);
    var ds := Trim(x.digits);
    BigInt(ds, x.negative && ds != [])
  }

  lemma {:induction false} NormalizedCanonical(x: BigInt)
    requires Canonical(x)
    ensures Normalized(x) == x
  {
    CanonicalByValue(Normalized(x), x);
  }

  /** The canonical value with magnitude n, negative when asked and n is non-zero. */
  function Signed(n: nat, negative: bool): (r: BigInt)
    ensures Canonical(r) && Magnitude(r) == n
    ensures Value(r) == if negative then -(n as int) else n
  {
    var ds := ToLimbs(n);
    ValZeroIffEmpty(ds);
    BigInt(ds, negative && ds != [])
  }

  /** Normalizing raw limbs gives the canonical value of their magnitude. */
  lemma {:induction false} NormalizedIsSigned(ds: seq<int>, negative: bool)
    requires AllLimbs(ds)
    ensures Normalized(BigInt(ds, negative)) == Signed(Val(ds), negative)
  {
    CanonicalByValue(Normalized(BigInt(ds, negative)), Signed(Val(ds), negative));
  }

  /** BigInteger(int) / BigInteger(int64_t): |value| as limbs, sign value < 0. */
  function FromInt(v: int): (r: BigInt)
    ensures Canonical(r) && Value(r) == v
  {
    BigInt(ToLimbs(if v < 0 then -v else v), v < 0)
  }

  /** Unary minus: flip the sign, then Normalize. */
  function Negated(x: BigInt): (r: BigInt)
    requires AllLimbs(x.digits)
    ensures Canonical(r) && Value(r) == -Value(x)
  {
    Normalized(BigInt(x.digits, !x.negative))
  }

  /** Absolute(): a copy with the sign cleared. */
  function Absolute(x: BigInt): (r: BigInt)
    ensures r.digits == x.digits && !r.negative
  {
    BigInt(x.digits, false)
  }

  /** operator bool: true iff the digit store is non-empty. */
  function IsNonZero(x: BigInt): bool {
    x.digits != []
  }

  lemma {:induction false} IsNonZeroMeansValueNonZero(x: BigInt)
    requires WellFormed(x)
    ensures IsNonZero(x) <==> Value(x) != 0
  {
    ValZeroIffEmpty(x.digits);
  }

  // ---------------------------------------------------------------------
  // Comparison (operator< and the five operators derived from it)

  /**
    The top-down scan of operator<: at the most significant of the first k
    limbs where a and b differ, `(a[i] < b[i]) != negative`; false if none.
   */
  function ScanLess(a: seq<int>, b: seq<int>, k: nat, negative: bool): bool
    requires |a| == |b| && k <= |a|
  {
    if k == 0 then false
    else if a[k - 1] != b[k - 1] then (a[k - 1] < b[k - 1]) != negative
    else ScanLess(a, b, k - 1, negative)
  }

  /** operator<: sign first, then limb count, then the scan. */
  function Less(a: BigInt, b: BigInt): bool {
    if a.negative != b.negative then a.negative
    else if |a.digits| != |b.digits| then (|a.digits| < |b.digits|) != a.negative
    else ScanLess(a.digits, b.digits, |a.digits|, a.negative)
  }

  function LessEq(a: BigInt, b: BigInt): bool {
    !Less(b, a)
  }

  function Greater(a: BigInt, b: BigInt): bool {
    Less(b, a)
  }

  function GreaterEq(a: BigInt, b: BigInt): bool {
    !Less(a, b)
  }

  function Equal(a: BigInt, b: BigInt): bool {
    !Less(a, b) && !Less(b, a)
  }

  function NotEqual(a: BigInt, b: BigInt): bool {
    !Equal(a, b)
  }

  lemma {:induction false} LimbDominates(lo1: int, lo2: int, d1: int, d2: int, p: int)
    requires 0 <= lo1 < p && 0 <= lo2 && d1 < d2
    ensures lo1 + d1 * p < lo2 + d2 * p
  {
    var e := d2 - d1;
    MulAtLeast(e, p);
    MulDistributes(p, d1, e);
    assert d2 * p == d1 * p + e * p;
  }

  lemma {:induction false} MulAtLeast(e: int, p: int)
    requires e >= 1 && p >= 0
    ensures e * p >= p
  {
  }

  /** The scan compares the values of the first k limbs (reversed when negative). */
  lemma {:induction false} ScanLessMeaning(a: seq<int>, b: seq<int>, k: nat, negative: bool)
    requires AllLimbs(a) && AllLimbs(b) && |a| == |b| && k <= |a|
    ensures AllLimbs(a[..k]) && AllLimbs(b[..k])
    ensures ScanLess(a, b, k, negative) <==>
      if negative then Val(b[..k]) < Val(a[..k]) else Val(a[..k]) < Val(b[..k])
  {
    assert AllLimbs(a[..k]) && AllLimbs(b[..k]);
    if k > 0 {
      ValPrefixStep(a, k - 1);
      ValPrefixStep(b, k - 1);
      var p := BasePow(k - 1);
      if a[k - 1] == b[k - 1] {
        ScanLessMeaning(a, b, k - 1, negative);
      } else if a[k - 1] < b[k - 1] {
        LimbDominates(Val(a[..k - 1]), Val(b[..k - 1]), a[k - 1], b[k - 1], p);
      } else {
        LimbDominates(Val(b[..k - 1]), Val(a[..k - 1]), b[k - 1], a[k - 1], p);
      }
    }
  }

  /** On well-formed values of one sign, Less compares magnitudes. */
  lemma {:induction false} LessSameSign(a: BigInt, b: BigInt)
    requires WellFormed(a) && WellFormed(b) && a.negative == b.negative
    ensures Less(a, b) <==>
      if a.negative then Magnitude(b) < Magnitude(a) else Magnitude(a) < Magnitude(b)
  {
    if |a.digits| < |b.digits| {
      ShorterIsSmaller(a.digits, b.digits);
    } else if |b.digits| < |a.digits| {
      ShorterIsSmaller(b.digits, a.digits);
    } else {
      ScanLessMeaning(a.digits, b.digits, |a.digits|, a.negative);
      assert a.digits[..|a.digits|] == a.digits && b.digits[..|b.digits|] == b.digits;
    }
  }

  /** Comparing absolute values compares magnitudes. */
  lemma {:induction false} LessAbsolute(a: BigInt, b: BigInt)
    requires WellFormed(a) && WellFormed(b)
    ensures Less(Absolute(a), Absolute(b)) <==> Magnitude(a) < Magnitude(b)
  {
    LessSameSign(Absolute(a), Absolute(b));
  }

  /** operator< agrees with integer order on canonical values. */
  lemma {:induction false} LessIsValueOrder(a: BigInt, b: BigInt)
    requires Canonical(a) && Canonical(b)
    ensures Less(a, b) <==> Value(a) < Value(b)
  {
    if a.negative == b.negative {
      LessSameSign(a, b);
    } else if a.negative {
      ValZeroIffEmpty(a.digits);
    } else {
      ValZeroIffEmpty(b.digits);
    }
  }

  /**
    The derived operators mean what their names say on canonical values, and
    == is structural equality, so the order is a strict total order.
   */
  lemma {:induction false} ComparisonsMeanValueOrder(a: BigInt, b: BigInt)
    requires Canonical(a) && Canonical(b)
    ensures Equal(a, b) <==> Value(a) == Value(b)
    ensures Equal(a, b) <==> a == b
    ensures NotEqual(a, b) <==> Value(a) != Value(b)
    ensures LessEq(a, b) <==> Value(a) <= Value(b)
    ensures Greater(a, b) <==> Value(a) > Value(b)
    ensures GreaterEq(a, b) <==> Value(a) >= Value(b)
  {
    LessIsValueOrder(a, b);
    LessIsValueOrder(b, a);
    if Value(a) == Value(b) {
      CanonicalByValue(a, b);
    }
  }

  /** operator< is irreflexive on every value, canonical or not. */
  lemma {:induction false} LessIrreflexive(a: BigInt)
    ensures !Less(a, a)
  {
    ScanIrreflexive(a.digits, |a.digits|, a.negative);
  }

  lemma {:induction false} ScanIrreflexive(a: seq<int>, k: nat, negative: bool)
    requires k <= |a|
    ensures !ScanLess(a, a, k, negative)
  {
    if k > 0 {
      ScanIrreflexive(a, k - 1, negative);
    }
  }

  /** Exactly one of a < b, a == b, b < a holds for canonical a and b. */
  lemma {:induction false} LessTrichotomy(a: BigInt, b: BigInt)
    requires Canonical(a) && Canonical(b)
    ensures (Less(a, b) && a != b && !Less(b, a)) || (!Less(a, b) && a == b && !Less(b, a))
      || (!Less(a, b) && a != b && Less(b, a))
  {
    ComparisonsMeanValueOrder(a, b);
    LessIsValueOrder(a, b);
    LessIsValueOrder(b, a);
  }

  lemma {:induction false} LessTransitive(a: BigInt, b: BigInt, c: BigInt)
    requires Canonical(a) && Canonical(b) && Canonical(c)
    requires Less(a, b) && Less(b, c)
    ensures Less(a, c)
  {
    LessIsValueOrder(a, b);
    LessIsValueOrder(b, c);
    LessIsValueOrder(a, c);
  }

  // ---------------------------------------------------------------------
  // Addition and subtraction (operator+= and operator-=)

  /** The same-sign branch of +=: magnitudes add, *this keeps its sign. */
  function AddMagnitudes(x: BigInt, y: BigInt): (r: BigInt)
    requires WellFormed(x) && WellFormed(y)
    ensures Canonical(r)
  {
    Signed(Magnitude(x) + Magnitude(y), x.negative)
  }

  /** The borrow loop of -=: |*this| >= |other|, *this keeps its sign. */
  function SubtractMagnitudes(x: BigInt, y: BigInt): (r: BigInt)
    requires WellFormed(x) && WellFormed(y) && Magnitude(x) >= Magnitude(y)
    ensures Canonical(r)
  {
    Signed(Magnitude(x) - Magnitude(y), x.negative)
  }

  /**
    The same-sign branch of -=: if Absolute() >= other.Absolute() the borrow
    loop runs on *this, otherwise *this becomes -(other - *this).
   */
  function SameSignDifference(x: BigInt, y: BigInt): (r: BigInt)
    requires WellFormed(x) && WellFormed(y)
    ensures Canonical(r)
  {
    LessAbsolute(x, y);
    if !Less(Absolute(x), Absolute(y)) then SubtractMagnitudes(x, y)
    else Negated(SubtractMagnitudes(y, x))
  }

  /**
    x += y. The source dispatches on `is_negative_ == other.is_negative_`;
    here a zero y also takes the same-sign branch, which is what keeps
    `x += 0` from recursing forever when x is negative (see AsWrittenDispatch).
   */
  function Sum(x: BigInt, y: BigInt): (r: BigInt)
    requires WellFormed(x) && WellFormed(y)
    ensures Canonical(r)
  {
    if x.negative == y.negative || y.digits == [] then AddMagnitudes(x, y)
    else SameSignDifference(x, Negated(y))
  }

  /** x -= y, with the same treatment of a zero y as Sum. */
  function Difference(x: BigInt, y: BigInt): (r: BigInt)
    requires WellFormed(x) && WellFormed(y)
    ensures Canonical(r)
  {
    if x.negative == y.negative || y.digits == [] then SameSignDifference(x, y)
    else AddMagnitudes(x, Negated(y))
  }

  lemma {:induction false} SameSignDifferenceValue(x: BigInt, y: BigInt)
    requires WellFormed(x) && WellFormed(y)
    requires x.negative == y.negative || y.digits == []
    ensures Value(SameSignDifference(x, y)) == Value(x) - Value(y)
  {
    LessAbsolute(x, y);
    ValZeroIffEmpty(y.digits);
  }

  /** += computes the exact sum, and the result is canonical. */
  lemma {:induction false} SumIsExact(x: BigInt, y: BigInt)
    requires WellFormed(x) && WellFormed(y)
    ensures Canonical(Sum(x, y)) && Value(Sum(x, y)) == Value(x) + Value(y)
  {
    ValZeroIffEmpty(y.digits);
    if !(x.negative == y.negative || y.digits == []) {
      SameSignDifferenceValue(x, Negated(y));
    }
  }

  /** -= computes the exact difference, and the result is canonical. */
  lemma {:induction false} DifferenceIsExact(x: BigInt, y: BigInt)
    requires WellFormed(x) && WellFormed(y)
    ensures Canonical(Difference(x, y)) && Value(Difference(x, y)) == Value(x) - Value(y)
  {
    ValZeroIffEmpty(y.digits);
    if x.negative == y.negative || y.digits == [] {
      SameSignDifferenceValue(x, y);
    }
  }

  /** (a + b) - b == a and (a - b) + b == a. */
  lemma {:induction false} SumDifferenceInverse(a: BigInt, b: BigInt)
    requires Canonical(a) && Canonical(b)
    ensures Difference(Sum(a, b), b) == a
    ensures Sum(Difference(a, b), b) == a
  {
    SumIsExact(a, b);
    DifferenceIsExact(Sum(a, b), b);
    CanonicalByValue(Difference(Sum(a, b), b), a);
    DifferenceIsExact(a, b);
    SumIsExact(Difference(a, b), b);
    CanonicalByValue(Sum(Difference(a, b), b), a);
  }

  /** a + (-a) == 0 and -(-a) == a. */
  lemma {:induction false} NegationLaws(a: BigInt)
    requires Canonical(a)
    ensures Sum(a, Negated(a)) == Zero
    ensures Negated(Negated(a)) == a
  {
    SumIsExact(a, Negated(a));
    CanonicalByValue(Sum(a, Negated(a)), Zero);
    CanonicalByValue(Negated(Negated(a)), a);
  }

  /** Prefix ++ and -- change the value by exactly one. */
  lemma {:induction false} IncrementDecrement(a: BigInt)
    requires WellFormed(a)
    ensures Value(Sum(a, FromInt(1))) == Value(a) + 1
    ensures Value(Difference(a, FromInt(1))) == Value(a) - 1
  {
    SumIsExact(a, FromInt(1));
    DifferenceIsExact(a, FromInt(1));
  }

  // ---------------------------------------------------------------------
  // Multiplication, division and the decimal digit count

  /** DigitCount(): the number of decimal digits of the magnitude, 1 for zero. */
  function DigitCount(x: BigInt): nat
    requires AllLimbs(x.digits)
  {
    |DecimalText(Magnitude(x))|
  }

  /** The exact product with sign a.neg XOR b.neg, normalized. */
  function Product(x: BigInt, y: BigInt): (r: BigInt)
    requires WellFormed(x) && WellFormed(y)
    ensures Canonical(r)
    ensures Magnitude(r) == Magnitude(x) * Magnitude(y) && (r.negative ==> x.negative != y.negative)
  {
    Signed(Magnitude(x) * Magnitude(y), x.negative != y.negative)
  }

  /** The digit ceiling of operator*: a numeral of more than 30009 digits. */
  predicate TooManyDigits(n: nat) {
    |DecimalText(n)| > MaxProductDigits
  }

  /** Past the ceiling exactly when n >= 10^30009. */
  lemma TooManyDigitsMeaning(n: nat)
    ensures TooManyDigits(n) <==> n >= Pow10(MaxProductDigits)
  {
    DecimalLengthBound(n, MaxProductDigits);
  }

  /** A number at least as large as one past the ceiling is past it too. */
  lemma TooManyDigitsMonotone(a: nat, b: nat)
    requires a <= b && TooManyDigits(a)
    ensures TooManyDigits(b)
  {
    TooManyDigitsMeaning(a);
    TooManyDigitsMeaning(b);
  }

  /** What *= leaves behind: the product, or Overflow past the digit ceiling. */
  function MultiplyResult(x: BigInt, y: BigInt): Result<BigInt>
    requires WellFormed(x) && WellFormed(y)
  {
    var p := Product(x, y);
    if DigitCount(p) > MaxProductDigits then Failure(Overflow) else Success(p)
  }

  /** Multiplication is exact, and overflows iff the product has more than 30009 digits. */
  lemma {:induction false} MultiplyResultMeaning(x: BigInt, y: BigInt)
    requires WellFormed(x) && WellFormed(y)
    ensures Value(Product(x, y)) == Value(x) * Value(y)
    ensures MultiplyResult(x, y).Failure? <==> TooManyDigits(Magnitude(x) * Magnitude(y))
    ensures MultiplyResult(x, y).Failure? <==> Magnitude(x) * Magnitude(y) >= Pow10(MaxProductDigits)
    ensures MultiplyResult(x, y).Failure? ==> MultiplyResult(x, y).error == Overflow
  {
    var p := Product(x, y);
    var a: int, b: int, m: int := Magnitude(x), Magnitude(y), Magnitude(p);
    TooManyDigitsMeaning(m);
    assert Value(p) == if x.negative != y.negative then -m else m by {
      ValZeroIffEmpty(p.digits);
    }
    assert Value(x) == (if x.negative then -a else a) && Value(y) == (if y.negative then -b else b);
    SignedProduct(a, b, x.negative, y.negative);
    assert m == a * b;
  }

  lemma {:induction false} SignedProduct(a: int, b: int, na: bool, nb: bool)
    ensures (if na then -a else a) * (if nb then -b else b) == if na != nb then -(a * b) else a * b
  {
  }

  lemma {:induction false} DivisionBounds(a: nat, b: nat)
    requires b > 0
    ensures 0 <= a / b && 0 <= a % b < b && a == a / b * b + a % b
  {
  }

  /** The quotient of truncating division: |x| / |y|, sign x.neg XOR y.neg. */
  function Quotient(x: BigInt, y: BigInt): (r: BigInt)
    requires WellFormed(x) && WellFormed(y) && y.digits != []
    ensures Canonical(r) && Magnitude(y) > 0
    ensures Magnitude(r) == Magnitude(x) / Magnitude(y) && (r.negative ==> x.negative != y.negative)
    ensures Value(r) == if x.negative != y.negative then -(Magnitude(r) as int) else Magnitude(r)
  {
    var a, b := Magnitude(x), Magnitude(y);
    assert b > 0 by {
      ValZeroIffEmpty(y.digits);
    }
    DivisionBounds(a, b);
    Signed(a / b, x.negative != y.negative)
  }

  /** The remainder of truncating division: |x| % |y| with the sign of x. */
  function Remainder(x: BigInt, y: BigInt): (r: BigInt)
    requires WellFormed(x) && WellFormed(y) && y.digits != []
    ensures Canonical(r) && Magnitude(y) > 0
    ensures Magnitude(r) == Magnitude(x) % Magnitude(y) && (r.negative ==> x.negative)
    ensures Value(r) == if x.negative then -(Magnitude(r) as int) else Magnitude(r)
  {
    var a, b := Magnitude(x), Magnitude(y);
    assert b > 0 by {
      ValZeroIffEmpty(y.digits);
    }
    DivisionBounds(a, b);
    Signed(a % b, x.negative)
  }

  /**
    x == q * y + r with |r| < |y|; r is zero or has the sign of x; and q is
    the true quotient rounded toward zero.
   */
  lemma {:induction false} TruncatingDivision(x: BigInt, y: BigInt)
    requires WellFormed(x) && WellFormed(y) && y.digits != []
    ensures Value(x) == Value(Quotient(x, y)) * Value(y) + Value(Remainder(x, y))
    ensures Magnitude(Remainder(x, y)) < Magnitude(y)
    ensures Value(Remainder(x, y)) == 0 || (Value(Remainder(x, y)) < 0 <==> Value(x) < 0)
    ensures Value(Quotient(x, y)) ==
      if x.negative != y.negative then -(Magnitude(x) / Magnitude(y)) else Magnitude(x) / Magnitude(y)
  {
    var qq, rr := Quotient(x, y), Remainder(x, y);
    var a, b := Magnitude(x), Magnitude(y);
    var q: int, r: int := Magnitude(qq), Magnitude(rr);
    assert a == q * b + r && r < b by {
      DivisionBounds(a, b);
    }
    TruncatingLaw(a, b, q, r, x.negative, y.negative);
  }

  lemma {:induction false} TruncatingLaw(a: int, b: int, q: int, r: int, na: bool, nb: bool)
    requires a == q * b + r && 0 <= q && 0 <= r < b
    ensures (if na then -a else a) ==
      (if na != nb then -q else q) * (if nb then -b else b) + (if na then -r else r)
    ensures r == 0 || ((if na then -r else r) < 0 <==> (if na then -a else a) < 0)
  {
    SignedProduct(q, b, na != nb, nb);
  }

  // ---------------------------------------------------------------------
  // Decimal text (operator<< and ParseString)

  /**
    The lower limbs ds[k-1], ..., ds[0], each written as exactly four digits,
    as the formatting loop emits them with setw(4) and setfill('0').
   */
  function PaddedLimbs(ds: seq<int>, k: nat): (s: string)
    requires AllLimbs(ds) && k <= |ds|
    ensures |s| == BaseDigits * k && AllDigits(s)
  {
    if k == 0 then "" else Pad4(ds[k - 1]) + PaddedLimbs(ds, k - 1)
  }

  /** The digits operator<< writes: "0" for an empty store, else top limb unpadded. */
  function MagnitudeText(ds: seq<int>): (s: string)
    requires AllLimbs(ds)
    ensures AllDigits(s)
  {
    if ds == [] then "0" else DecimalText(ds[|ds| - 1]) + PaddedLimbs(ds, |ds| - 1)
  }

  /** operator<<: a '-' when the sign flag is set, then the magnitude. */
  function ToText(x: BigInt): string
    requires AllLimbs(x.digits)
  {
    (if x.negative then "-" else "") + MagnitudeText(x.digits)
  }

  lemma {:induction false} PaddedLimbsStep(ds: seq<int>, k: nat)
    requires IsCanonical(ds) && k < |ds| - 1
    ensures AllLimbs(ds[k + 1..]) && AllLimbs(ds[k..])
    ensures DecimalText(Val(ds[k + 1..])) + PaddedLimbs(ds, k + 1) ==
            DecimalText(Val(ds[k..])) + PaddedLimbs(ds, k)
  {
    var hi := ds[k + 1..];
    assert ds[k..][1..] == hi;
    assert IsCanonical(hi) && hi != [] && hi[|hi| - 1] == ds[|ds| - 1];
    ValLowerBound(hi);
    var v := Val(hi);
    assert Val(ds[k..]) == v * Base + ds[k];
    DecimalTextShiftLimb(v, ds[k]);
    var a, p, q := DecimalText(v), Pad4(ds[k]), PaddedLimbs(ds, k);
    calc {
      DecimalText(Val(ds[k..])) + q;
      (a + p) + q;
      { AppendAssociates(a, p, q); }
      a + (p + q);
      a + PaddedLimbs(ds, k + 1);
    }
  }

  lemma {:induction false} AppendAssociates(a: string, p: string, q: string)
    ensures (a + p) + q == a + (p + q)
  {
  }

  lemma {:induction false} MagnitudeTextPartial(ds: seq<int>, k: nat)
    requires IsCanonical(ds) && k < |ds|
    ensures AllLimbs(ds[k..])
    ensures DecimalText(Val(ds[k..])) + PaddedLimbs(ds, k) == DecimalText(Val(ds))
  {
    if k > 0 {
      MagnitudeTextPartial(ds, k - 1);
      PaddedLimbsStep(ds, k - 1);
    } else {
      assert ds[0..] == ds;
    }
  }

  /** The formatted magnitude of canonical limbs is the canonical numeral of their value. */
  lemma {:induction false} MagnitudeTextIsNumeral(ds: seq<int>)
    requires IsCanonical(ds)
    ensures MagnitudeText(ds) == DecimalText(Val(ds))
  {
    if ds != [] {
      MagnitudeTextPartial(ds, |ds| - 1);
      var top := ds[|ds| - 1..];
      assert top == [ds[|ds| - 1]];
      assert Val(top) == ds[|ds| - 1] by {
        assert top[1..] == [];
      }
    }
  }

  /** The number of characters the sign occupies: one for a leading '+' or '-'. */
  function SignLength(s: string): nat
    ensures SignLength(s) <= |s|
  {
    if |s| > 0 && (s[0] == '-' || s[0] == '+') then 1 else 0
  }

  /** A leading '-' sets the sign; the empty string reads as "0" (its str[0] is '\0'). */
  predicate HasMinus(s: string) {
    |s| > 0 && s[0] == '-'
  }

  /** The inputs the parser is modelled on: an optional sign, then decimal digits. */
  predicate IsSignedDigits(s: string) {
    AllDigits(s[SignLength(s)..])
  }

  /**
    What ParseString builds from a sign and digits: the sign from a leading
    '-', the canonical limbs of the digits' value, and no Normalize, so "-0"
    (and a bare "-") comes out as negative zero.
   */
  function ParseSpec(s: string): (r: BigInt)
    requires IsSignedDigits(s)
    ensures WellFormed(r)
    ensures Value(r) == if HasMinus(s) then -(DecVal(s[SignLength(s)..]) as int) else DecVal(s[SignLength(s)..])
  {
    BigInt(ToLimbs(DecVal(s[SignLength(s)..])), HasMinus(s))
  }

  /** The corrected constructor from text: ParseString followed by Normalize. */
  function Parse(s: string): (r: BigInt)
    requires IsSignedDigits(s)
    ensures Canonical(r)
    ensures Value(r) == if HasMinus(s) then -(DecVal(s[SignLength(s)..]) as int) else DecVal(s[SignLength(s)..])
  {
    Normalized(ParseSpec(s))
  }

  /** Printing a well-formed value and parsing the text back gives the same value. */
  lemma {:induction false} TextRoundTrip(x: BigInt)
    requires WellFormed(x)
    ensures IsSignedDigits(ToText(x)) && ParseSpec(ToText(x)) == x
  {
    MagnitudeTextIsNumeral(x.digits);
    var m := MagnitudeText(x.digits);
    var s := ToText(x);
    assert s[SignLength(s)..] == m;
    ToLimbsVal(x.digits);
  }

  /** Canonical text: an optional '-' before a numeral without leading zeros. */
  predicate IsCanonicalText(s: string) {
    IsNumeral(s) || (|s| >= 2 && s[0] == '-' && IsNumeral(s[1..]))
  }

  /**
    Parsing canonical text and printing it back reproduces the text; with the
    parser as written this holds for "-0" too, which prints as "-0".
   */
  lemma {:induction false} CanonicalTextRoundTrip(s: string)
    requires IsCanonicalText(s)
    ensures IsSignedDigits(s) && ToText(ParseSpec(s)) == s
  {
    var body := s[SignLength(s)..];
    CanonicalTextSplit(s);
    var x := ParseSpec(s);
    MagnitudeTextIsNumeral(x.digits);
    DecimalTextOfNumeral(body);
    assert MagnitudeText(x.digits) == body;
  }

  /** Canonical text is an optional '-' followed by a numeral. */
  lemma CanonicalTextSplit(s: string)
    requires IsCanonicalText(s)
    ensures IsSignedDigits(s) && IsNumeral(s[SignLength(s)..])
    ensures s == (if HasMinus(s) then "-" else "") + s[SignLength(s)..]
  {
    if s[0] == '-' {
      assert s == "-" + s[1..];
    } else {
      assert s == "" + s;
    }
  }

  /** With the corrected parser the round trip holds except that "-0" prints as "0". */
  lemma {:induction false} CorrectedTextRoundTrip(s: string)
    requires IsCanonicalText(s)
    ensures IsSignedDigits(s)
    ensures ToText(Parse(s)) == if s == "-0" then "0" else s
  {
    CanonicalTextRoundTrip(s);
    var body := s[SignLength(s)..];
    if s[0] == '-' && body == "0" {
      assert s == "-0";
    }
    if ParseSpec(s).digits != [] || !ParseSpec(s).negative {
      assert Parse(s) == ParseSpec(s);
    } else {
      assert s[0] == '-' && DecVal(body) == 0;
      DecimalTextOfNumeral(body);
      assert body == "0";
      assert s == "-" + body;
    }
  }

  /**
    As written, "-0" parses to negative zero, which denotes 0 yet compares
    below zero, differs from BigInteger(0) under ==, and prints as "-0".
   */
  lemma {:induction false} NegativeZeroFromText()
    ensures IsSignedDigits("-0") && ParseSpec("-0") == NegativeZero
    ensures Value(NegativeZero) == Value(FromInt(0))
    ensures Less(NegativeZero, FromInt(0)) && NotEqual(NegativeZero, FromInt(0))
    ensures ToText(ParseSpec("-0")) == "-0"
  {
    assert "-0"[1..] == "0";
    assert DecVal("0") == 0 by {
      assert "0"[..0] == [];
    }
    assert FromInt(0) == Zero;
  }

  /** The corrected parser turns "-0" into the one zero. */
  lemma {:induction false} ParseNegativeZero()
    ensures IsSignedDigits("-0") && Parse("-0") == FromInt(0)
    ensures Equal(Parse("-0"), FromInt(0)) && ToText(Parse("-0")) == "0"
  {
    NegativeZeroFromText();
    LessIrreflexive(Zero);
  }
}
