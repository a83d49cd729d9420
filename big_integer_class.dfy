/**
  The BigInteger class itself (big_integer.h:32-98): the two fields
  digits_ and is_negative_ that the compound assignments and ++/-- update in
  place, the const queries, the comparisons and the free binary operators
  that copy their left operand. Every member delegates to the loops of
  BigIntegerOps and is stated against the functions of BigIntegers.
 */
module BigIntegerClass {
  import opened Limbs
  import opened Decimal
  import opened BigIntegers
  import opened BigIntegerOps

  class BigInteger {
    /** digits_: base-10000 limbs, least significant first. */
    var digits: seq<int>
    /** is_negative_ */
    var isNegative: bool

    function Model(): BigInt
      reads this
    {
      BigInt(digits, isNegative)
    }

    /** Every constructor and operation leaves a canonical number behind. */
    predicate Valid()
      reads this
    {
      Canonical(Model())
    }

    /** BigInteger(): no limbs, not negative. */
    constructor ()
      ensures Valid() && Model() == Zero
    {
      digits, isNegative := [], false;
    }

    /** BigInteger(int) and BigInteger(int64_t); INT64_MIN is excluded since std::abs overflows on it. */
    constructor OfInt(value: int)
      requires -Int64Max <= value <= Int64Max
      ensures Valid() && Model() == FromInt(value) && Value(Model()) == value
    {
      var x := FromInt64(value);
      digits, isNegative := x.digits, x.negative;
    }

    /**
      BigInteger(const std::string&) and BigInteger(const char*) on an
      optional sign followed by decimal digits, with the corrected parse
      that normalizes "-0" to zero.
     */
    constructor OfText(s: string)
      requires IsSignedDigits(s)
      ensures Valid() && Model() == Parse(s)
    {
      var x := ParseString(s);
      x := Normalize(x);
      digits, isNegative := x.digits, x.negative;
    }

    /** The defaulted copy constructor: equal fields, a new object. */
    constructor Copy(other: BigInteger)
      requires other.Valid()
      ensures Valid() && Model() == other.Model()
    {
      digits, isNegative := other.digits, other.isNegative;
    }

    /** The defaulted copy and move assignments. */
    method Assign(other: BigInteger)
      requires other.Valid()
      modifies this
      ensures Valid() && Model() == old(other.Model())
    {
      digits, isNegative := other.digits, other.isNegative;
    }

    function IsNegative(): (b: bool)
      requires Valid()
      reads this
      ensures b <==> Value(Model()) < 0
    {
      ValZeroIffEmpty(digits);
      isNegative
    }

    /** explicit operator bool: true exactly for a nonzero number. */
    function ToBool(): (b: bool)
      requires Valid()
      reads this
      ensures b <==> Value(Model()) != 0
    {
      IsNonZeroMeansValueNonZero(Model());
      digits != []
    }

    method Absolute() returns (r: BigInteger)
      requires Valid()
      ensures fresh(r) && r.Valid() && r.Model() == BigIntegers.Absolute(Model())
      ensures Value(r.Model()) == if Value(Model()) < 0 then -Value(Model()) else Value(Model())
    {
      r := new BigInteger.Copy(this);
      r.isNegative := false;
    }

    /** Unary +: a copy. */
    method UnaryPlus() returns (r: BigInteger)
      requires Valid()
      ensures fresh(r) && r.Valid() && r.Model() == Model()
    {
      r := new BigInteger.Copy(this);
    }

    /** Unary -: flip the sign and normalize, so that -0 is 0. */
    method UnaryMinus() returns (r: BigInteger)
      requires Valid()
      ensures fresh(r) && r.Valid() && r.Model() == Negated(Model())
      ensures Value(r.Model()) == -Value(Model())
    {
      r := new BigInteger.Copy(this);
      var n := Normalize(BigInt(digits, !isNegative));
      r.digits, r.isNegative := n.digits, n.negative;
    }

    /** operator+=; other may be this object itself. */
    method AddAssign(other: BigInteger)
      requires Valid() && other.Valid()
      modifies this
      ensures Valid() && Model() == Sum(old(Model()), old(other.Model()))
      ensures Value(Model()) == Value(old(Model())) + Value(old(other.Model()))
    {
      SumIsExact(Model(), other.Model());
      var r := Add(Model(), other.Model());
      digits, isNegative := r.digits, r.negative;
    }

    /** operator-=; other may be this object itself. */
    method SubAssign(other: BigInteger)
      requires Valid() && other.Valid()
      modifies this
      ensures Valid() && Model() == Difference(old(Model()), old(other.Model()))
      ensures Value(Model()) == Value(old(Model())) - Value(old(other.Model()))
    {
      DifferenceIsExact(Model(), other.Model());
      var r := Subtract(Model(), other.Model());
      digits, isNegative := r.digits, r.negative;
    }

    /** operator*=: on BigIntegerOverflow *this keeps its value. */
    method MulAssign(other: BigInteger) returns (r: Result<()>)
      requires Valid() && other.Valid()
      modifies this
      ensures Valid()
      ensures MultiplyResult(old(Model()), old(other.Model())).Success? ==>
        r == Success(()) && Model() == MultiplyResult(old(Model()), old(other.Model())).value
      ensures MultiplyResult(old(Model()), old(other.Model())).Failure? ==>
        r == Failure(Overflow) && Model() == old(Model())
    {
      var p := Multiply(Model(), other.Model());
      if p.Failure? {
        return Failure(Overflow);
      }
      digits, isNegative := p.value.digits, p.value.negative;
      r := Success(());
    }

    /** operator/=: on BigIntegerDivisionByZero *this keeps its value. */
    method DivAssign(other: BigInteger) returns (r: Result<()>)
      requires Valid() && other.Valid()
      modifies this
      ensures Valid()
      ensures old(other.digits) == [] ==> r == Failure(DivisionByZero) && Model() == old(Model())
      ensures old(other.digits) != [] ==>
        r == Success(()) && Model() == Quotient(old(Model()), old(other.Model()))
    {
      var q := Divide(Model(), other.Model());
      if q.Failure? {
        return Failure(DivisionByZero);
      }
      digits, isNegative := q.value.digits, q.value.negative;
      r := Success(());
    }

    /** operator%=: on BigIntegerDivisionByZero *this keeps its value. */
    method ModAssign(other: BigInteger) returns (r: Result<()>)
      requires Valid() && other.Valid()
      modifies this
      ensures Valid()
      ensures old(other.digits) == [] ==> r == Failure(DivisionByZero) && Model() == old(Model())
      ensures old(other.digits) != [] ==>
        r == Success(()) && Model() == Remainder(old(Model()), old(other.Model()))
    {
      var m := Modulo(Model(), other.Model());
      if m.Failure? {
        return Failure(DivisionByZero);
      }
      digits, isNegative := m.value.digits, m.value.negative;
      r := Success(());
    }

    /** Prefix ++: *this += BigInteger(1). */
    method Increment()
      requires Valid()
      modifies this
      ensures Valid() && Model() == Sum(old(Model()), FromInt(1))
      ensures Value(Model()) == Value(old(Model())) + 1
    {
      var one := new BigInteger.OfInt(1);
      AddAssign(one);
    }

    /** Prefix --: *this -= BigInteger(1). */
    method Decrement()
      requires Valid()
      modifies this
      ensures Valid() && Model() == Difference(old(Model()), FromInt(1))
      ensures Value(Model()) == Value(old(Model())) - 1
    {
      var one := new BigInteger.OfInt(1);
      SubAssign(one);
    }

    /** Postfix ++: returns a copy of the value before the increment. */
    method PostIncrement() returns (before: BigInteger)
      requires Valid()
      modifies this
      ensures fresh(before) && before.Valid() && before.Model() == old(Model())
      ensures Valid() && Value(Model()) == Value(old(Model())) + 1
    {
      before := new BigInteger.Copy(this);
      Increment();
    }

    /** Postfix --: returns a copy of the value before the decrement. */
    method PostDecrement() returns (before: BigInteger)
      requires Valid()
      modifies this
      ensures fresh(before) && before.Valid() && before.Model() == old(Model())
      ensures Valid() && Value(Model()) == Value(old(Model())) - 1
    {
      before := new BigInteger.Copy(this);
      Decrement();
    }

    /** DigitCount: the number of decimal digits of |*this|, 1 for zero. */
    method DigitCount() returns (count: nat)
      requires Valid()
      ensures count == |DecimalText(Magnitude(Model()))|
      ensures count >= 1 && (count <= MaxProductDigits <==> Magnitude(Model()) < Pow10(MaxProductDigits))
    {
      count := CountDigits(Model());
      DecimalLengthBound(Magnitude(Model()), MaxProductDigits);
    }

    /** operator<<: the sign, then the top limb, then the others padded to four digits. */
    method ToString() returns (s: string)
      requires Valid()
      ensures s == ToText(Model()) && IsSignedDigits(s) && Parse(s) == Model()
    {
      s := Format(Model());
      TextRoundTrip(Model());
      NormalizedCanonical(Model());
    }
  }

  /** The friend operator<. */
  method Less(a: BigInteger, b: BigInteger) returns (r: bool)
    requires a.Valid() && b.Valid()
    ensures r <==> Value(a.Model()) < Value(b.Model())
  {
    r := LessThan(a.Model(), b.Model());
    LessIsValueOrder(a.Model(), b.Model());
  }

  /** operator==: neither is less than the other. */
  method Equal(a: BigInteger, b: BigInteger) returns (r: bool)
    requires a.Valid() && b.Valid()
    ensures r <==> Value(a.Model()) == Value(b.Model())
    ensures r <==> a.Model() == b.Model()
  {
    var ab := LessThan(a.Model(), b.Model());
    var ba := LessThan(b.Model(), a.Model());
    r := !ab && !ba;
    ComparisonsMeanValueOrder(a.Model(), b.Model());
  }

  method NotEqual(a: BigInteger, b: BigInteger) returns (r: bool)
    requires a.Valid() && b.Valid()
    ensures r <==> Value(a.Model()) != Value(b.Model())
  {
    var e := Equal(a, b);
    r := !e;
  }

  method LessEq(a: BigInteger, b: BigInteger) returns (r: bool)
    requires a.Valid() && b.Valid()
    ensures r <==> Value(a.Model()) <= Value(b.Model())
  {
    var ba := Less(b, a);
    r := !ba;
  }

  method Greater(a: BigInteger, b: BigInteger) returns (r: bool)
    requires a.Valid() && b.Valid()
    ensures r <==> Value(a.Model()) > Value(b.Model())
  {
    r := Less(b, a);
  }

  method GreaterEq(a: BigInteger, b: BigInteger) returns (r: bool)
    requires a.Valid() && b.Valid()
    ensures r <==> Value(a.Model()) >= Value(b.Model())
  {
    var ab := Less(a, b);
    r := !ab;
  }

  /**
    The free operator+: the left operand is taken by value, so the result is
    a new object and neither argument changes.
   */
  method BinaryPlus(a: BigInteger, b: BigInteger) returns (c: BigInteger)
    requires a.Valid() && b.Valid()
    ensures fresh(c) && c.Valid() && Value(c.Model()) == Value(a.Model()) + Value(b.Model())
  {
    c := new BigInteger.Copy(a);
    c.AddAssign(b);
  }

  method BinaryMinus(a: BigInteger, b: BigInteger) returns (c: BigInteger)
    requires a.Valid() && b.Valid()
    ensures fresh(c) && c.Valid() && Value(c.Model()) == Value(a.Model()) - Value(b.Model())
  {
    c := new BigInteger.Copy(a);
    c.SubAssign(b);
  }

  /** The free operator*: the product, or the overflow that operator*= throws. */
  method BinaryTimes(a: BigInteger, b: BigInteger) returns (c: Result<BigInteger>)
    requires a.Valid() && b.Valid()
    ensures c.Success? ==> fresh(c.value) && c.value.Valid() && Value(c.value.Model()) == Value(a.Model()) * Value(b.Model())
    ensures c.Failure? <==> Magnitude(a.Model()) * Magnitude(b.Model()) >= Pow10(MaxProductDigits)
    ensures c.Failure? ==> c.error == Overflow
  {
    var t := new BigInteger.Copy(a);
    MultiplyResultMeaning(a.Model(), b.Model());
    var r := t.MulAssign(b);
    if r.Failure? {
      return Failure(Overflow);
    }
    c := Success(t);
  }

  /** The free operator/: the truncated quotient, or division by zero. */
  method BinaryDivide(a: BigInteger, b: BigInteger) returns (c: Result<BigInteger>)
    requires a.Valid() && b.Valid()
    ensures b.digits == [] <==> c == Failure(DivisionByZero)
    ensures c.Success? ==> fresh(c.value) && c.value.Valid() && c.value.Model() == Quotient(a.Model(), b.Model())
  {
    var t := new BigInteger.Copy(a);
    var r := t.DivAssign(b);
    if r.Failure? {
      return Failure(DivisionByZero);
    }
    c := Success(t);
  }

  /** The free operator%: the remainder with the sign of a, or division by zero. */
  method BinaryModulo(a: BigInteger, b: BigInteger) returns (c: Result<BigInteger>)
    requires a.Valid() && b.Valid()
    ensures b.digits == [] <==> c == Failure(DivisionByZero)
    ensures c.Success? ==> fresh(c.value) && c.value.Valid() && c.value.Model() == Remainder(a.Model(), b.Model())
  {
    var t := new BigInteger.Copy(a);
    var r := t.ModAssign(b);
    if r.Failure? {
      return Failure(DivisionByZero);
    }
    c := Success(t);
  }
}
