/**
  The sign dispatch of operator+= and operator-= exactly as written
  (big_integer.cpp:102-153). Each operator either finishes with a magnitude
  loop or hands its work to the other one with the operand negated; a call
  is a state and Step performs one hand-over, so that a dispatch which never
  finishes can be stated and proved.
 */
module AsWrittenDispatch {
  import opened Limbs
  import opened BigIntegers

  /** A pending `x += y`, a pending `x -= y`, or the value left in x. */
  datatype Call = AddCall(x: BigInt, y: BigInt) | SubCall(x: BigInt, y: BigInt) | Done(result: BigInt)

  predicate CallWellFormed(c: Call) {
    match c
    case AddCall(x, y) => WellFormed(x) && WellFormed(y)
    case SubCall(x, y) => WellFormed(x) && WellFormed(y)
    case Done(r) => WellFormed(r)
  }

  /**
    One dispatch step: with equal sign flags += adds magnitudes and -= runs
    its borrow loop (or computes -(other - *this), whose inner subtraction has
    equal signs and so finishes); otherwise += becomes `-= -other` and -=
    becomes `+= -other`.
   */
  function Step(c: Call): (n: Call)
    requires CallWellFormed(c)
    ensures CallWellFormed(n)
  {
    match c
    case AddCall(x, y) =>
      if x.negative == y.negative then Done(AddMagnitudes(x, y)) else SubCall(x, Negated(y))
    case SubCall(x, y) =>
      if x.negative == y.negative then Done(SameSignDifference(x, y)) else AddCall(x, Negated(y))
    case Done(_) => c
  }

  /** The call after n dispatch steps. */
  function Run(c: Call, n: nat): (r: Call)
    requires CallWellFormed(c)
    ensures CallWellFormed(r)
    decreases n
  {
    if n == 0 then c else Run(Step(c), n - 1)
  }

  /** The inputs on which the dispatch never finishes: a negative x and a zero y. */
  predicate Diverges(x: BigInt, y: BigInt) {
    x.negative && y == Zero
  }

  /** x += 0 with negative x hands itself to x -= 0 and back, unchanged. */
  lemma {:induction false} DispatchCycle(x: BigInt)
    requires WellFormed(x) && x.negative
    ensures Step(AddCall(x, Zero)) == SubCall(x, Zero)
    ensures Step(SubCall(x, Zero)) == AddCall(x, Zero)
  {
    assert Negated(Zero) == Zero;
  }

  /** So x += 0 and x -= 0 with negative x never produce a value, however many steps run. */
  lemma {:induction false} NeverReturns(x: BigInt, n: nat)
    requires WellFormed(x) && x.negative
    ensures !Run(AddCall(x, Zero), n).Done?
    ensures !Run(SubCall(x, Zero), n).Done?
  {
    if n > 0 {
      DispatchCycle(x);
      NeverReturns(x, n - 1);
    }
  }

  /**
    On every other pair of well-formed operands the dispatch finishes within
    two steps, with the value the corrected Sum and Difference give.
   */
  lemma {:induction false} AgreesWhenFinishing(x: BigInt, y: BigInt)
    requires WellFormed(x) && WellFormed(y) && !Diverges(x, y)
    ensures Run(AddCall(x, y), 2) == Done(Sum(x, y))
    ensures Run(SubCall(x, y), 2) == Done(Difference(x, y))
  {
    if x.negative != y.negative && y.digits == [] {
      // y is negative zero and x is non-negative: the hand-over reaches the
      // other operator with a zero operand of x's sign.
      assert y == NegativeZero && Negated(y) == Zero;
      SumIsExact(x, y);
      SameSignDifferenceValue(x, Zero);
      CanonicalByValue(SameSignDifference(x, Zero), Sum(x, y));
      DifferenceIsExact(x, y);
      assert Value(AddMagnitudes(x, Zero)) == Value(x);
      CanonicalByValue(AddMagnitudes(x, Zero), Difference(x, y));
    } else if x.negative != y.negative {
      ValZeroIffEmpty(y.digits);
      assert Negated(y).negative == x.negative;
      assert Run(AddCall(x, y), 2) == Run(SubCall(x, Negated(y)), 1);
      assert Run(SubCall(x, y), 2) == Run(AddCall(x, Negated(y)), 1);
    }
    assert Run(AddCall(x, y), 2) == Run(Step(Step(AddCall(x, y))), 0);
    assert Run(SubCall(x, y), 2) == Run(Step(Step(SubCall(x, y))), 0);
  }
}
