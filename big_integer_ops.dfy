/**
  The loops of BigInteger (big_integer.cpp), each run on values and proved
  to compute the function of BigIntegers that specifies it. The class in
  BigIntegerClass applies them to its fields.
 */
module BigIntegerOps {
  import opened Limbs
  import opened Decimal
  import opened BigIntegers

  /** The largest int64_t; std::abs(INT64_MIN) is undefined, so it is excluded. */
  const Int64Max: int := 0x7FFF_FFFF_FFFF_FFFF

  function Max(a: int, b: int): int {
    if a < b then b else a
  }

  /** AddDigits: push value % kBase and divide by kBase until value is 0. */
  method AddDigits(value: nat) returns (ds: seq<int>)
    ensures ds == ToLimbs(value)
  {
    ds := [];
    var v: nat := value;
    while v > 0
      invariant AllLimbs(ds) && (v > 0 || Trimmed(ds))
      invariant Val(ds) + BasePow(|ds|) * v == value
    {
      PushLimb(ds, v);
      ds := ds + [v % Base];
      v := v / Base;
    }
    assert IsCanonical(ds) && Val(ds) == value by {
      assert BasePow(|ds|) * v == 0;
    }
    ToLimbsVal(ds);
  }

  /** BigInteger(int) and BigInteger(int64_t): the sign is value < 0, the limbs those of |value|. */
  method FromInt64(value: int) returns (x: BigInt)
    requires -Int64Max <= value <= Int64Max
    ensures x == FromInt(value)
  {
    var ds := AddDigits(if value < 0 then -value else value);
    x := BigInt(ds, value < 0);
  }

  /** RemoveLeadingZeros: pop most-significant zero limbs. */
  method RemoveLeadingZeros(ds: seq<int>) returns (r: seq<int>)
    ensures r == Trim(ds)
  {
    r := ds;
    while r != [] && r[|r| - 1] == 0
      invariant Trim(r) == Trim(ds)
      decreases |r|
    {
      r := r[..|r| - 1];
    }
  }

  /** Normalize: RemoveLeadingZeros, then an empty store is non-negative. */
  method Normalize(x: BigInt) returns (r: BigInt)
    requires AllLimbs(x.digits)
    ensures r == Normalized(x)
  {
    var ds := RemoveLeadingZeros(x.digits);
    r := BigInt(ds, x.negative);
    if ds == [] {
      r := BigInt(ds, false);
    }
  }

  /**
    ParseString: an optional sign, then groups of four characters read from
    the right, each group's digits accumulated most significant first, and
    RemoveLeadingZeros at the end. The overflow check on every accumulated
    group holds: a group of at most four digits stays below kBase.
   */
  method ParseString(s: string) returns (x: BigInt)
    requires IsSignedDigits(s)
    ensures x == ParseSpec(s)
  {
    var negative := false;
    var start := 0;
    if |s| > 0 && s[0] == '-' {
      negative := true;
      start := 1;
    } else if |s| > 0 && s[0] == '+' {
      start := 1;
    }
    assert start == SignLength(s);
    var ds := ReadGroups(s, start);
    var trimmed := RemoveLeadingZeros(ds);
    ValTrim(ds);
    ToLimbsVal(trimmed);
    x := BigInt(trimmed, negative);
  }

  /** The loop of ParseString: one limb per group of four characters, from the right. */
  method ReadGroups(s: string, start: nat) returns (ds: seq<int>)
    requires start <= |s| && AllDigits(s[start..])
    ensures AllLimbs(ds) && Val(ds) == DecVal(s[start..])
  {
    ds := [];
    var i := |s| - 1;
    while i >= start
      invariant start - BaseDigits <= i < |s|
      invariant BaseDigits * |ds| == |s| - 1 - i
      invariant AllLimbs(ds)
      invariant Val(ds) == DecVal(s[Max(i + 1, start)..])
      decreases i
    {
      var end := Max(start, i - BaseDigits + 1);
      SuffixDigits(s, start, end, i + 1);
      var digit := ReadGroup(s, end, i + 1);
      ParseGroupStep(s, ds, end, i + 1);
      ds := ds + [digit];
      i := i - BaseDigits;
    }
    assert Max(i + 1, start) == start;
  }

  /** The digits after the sign stay digits in every slice the parser reads. */
  lemma {:induction false} SuffixDigits(s: string, start: nat, lo: nat, hi: nat)
    requires start <= lo <= hi <= |s| && AllDigits(s[start..])
    ensures AllDigits(s[lo..]) && AllDigits(s[hi..]) && AllDigits(s[lo..hi])
  {
    assert forall k :: lo <= k < |s| ==> s[k] == s[start..][k - start];
  }

  /**
    The inner loop of ParseString: accumulate `digit * 10 + (str[j] - '0')`
    over the group s[lo..hi] of at most four digits; the overflow check on
    each partial value holds because a group fits in one limb.
   */
  method ReadGroup(s: string, lo: nat, hi: nat) returns (digit: int)
    requires lo <= hi <= |s| && hi - lo <= BaseDigits && AllDigits(s[lo..hi])
    ensures digit == DecVal(s[lo..hi]) && 0 <= digit < Base
  {
    var group := s[lo..hi];
    digit := 0;
    var j := lo;
    while j < hi
      invariant lo <= j <= hi
      invariant digit == DecVal(group[..j - lo]) < Base
    {
      DecValPush(group, j - lo);
      GroupFits(group[..j + 1 - lo]);
      assert s[j] == group[j - lo];
      digit := digit * 10 + DigitVal(s[j]);
      j := j + 1;
    }
    assert group[..j - lo] == group;
  }

  /** One more digit on the right of a digit string. */
  lemma {:induction false} DecValPush(g: string, k: nat)
    requires k < |g| && AllDigits(g)
    ensures AllDigits(g[..k]) && AllDigits(g[..k + 1])
    ensures DecVal(g[..k + 1]) == DecVal(g[..k]) * 10 + DigitVal(g[k])
  {
    assert g[..k + 1][..k] == g[..k];
  }

  /** A group of at most four digits fits in one limb. */
  lemma {:induction false} GroupFits(g: string)
    requires AllDigits(g) && |g| <= BaseDigits
    ensures DecVal(g) < Base
  {
    Pow10Monotonic(|g|, BaseDigits);
    BaseIsPow10(0);
  }

  /** Pushing the group s[lo..hi] onto the limbs of s[hi..] gives the limbs of s[lo..]. */
  lemma {:induction false} ParseGroupStep(s: string, ds: seq<int>, lo: nat, hi: nat)
    requires lo <= hi <= |s| && AllDigits(s[lo..]) && AllLimbs(ds)
    requires BaseDigits * |ds| == |s| - hi
    requires AllDigits(s[hi..]) && Val(ds) == DecVal(s[hi..])
    requires AllDigits(s[lo..hi]) && DecVal(s[lo..hi]) < Base
    ensures AllLimbs(ds + [DecVal(s[lo..hi])])
    ensures Val(ds + [DecVal(s[lo..hi])]) == DecVal(s[lo..])
  {
    var g := s[lo..hi];
    ValPush(ds, DecVal(g));
    BaseIsPow10(|ds|);
    assert s[lo..] == g + s[hi..];
    DecValAppend(g, s[hi..]);
  }

  /**
    operator<<: a '-' for a set sign flag, "0" for an empty store, else the
    top limb unpadded and every lower limb as four zero-padded digits.
   */
  method Format(x: BigInt) returns (s: string)
    requires AllLimbs(x.digits)
    ensures s == ToText(x)
  {
    var sign := if x.negative then "-" else "";
    var ds := x.digits;
    if ds == [] {
      s := sign + "0";
    } else {
      var top := DecimalText(ds[|ds| - 1]);
      s := WriteLowerLimbs(ds, sign + top);
      AppendAssociates(sign, top, PaddedLimbs(ds, |ds| - 1));
    }
  }

  /** The loop of operator<< over the lower limbs, each with setw(4) and setfill('0'). */
  method WriteLowerLimbs(ds: seq<int>, prefix: string) returns (s: string)
    requires AllLimbs(ds) && ds != []
    ensures s == prefix + PaddedLimbs(ds, |ds| - 1)
  {
    s := prefix;
    var i := |ds| - 2;
    while i >= 0
      invariant -1 <= i <= |ds| - 2
      invariant s + PaddedLimbs(ds, i + 1) == prefix + PaddedLimbs(ds, |ds| - 1)
    {
      WriteLimbStep(ds, i, s);
      s := s + Pad4(ds[i]);
      i := i - 1;
    }
    WriteLimbsDone(ds, s);
  }

  /** Writing limb i moves it from the pending suffix to the text written so far. */
  lemma WriteLimbStep(ds: seq<int>, i: nat, s: string)
    requires AllLimbs(ds) && i < |ds|
    ensures (s + Pad4(ds[i])) + PaddedLimbs(ds, i) == s + PaddedLimbs(ds, i + 1)
  {
    AppendAssociates(s, Pad4(ds[i]), PaddedLimbs(ds, i));
  }

  /** Nothing is pending once every lower limb is written. */
  lemma WriteLimbsDone(ds: seq<int>, s: string)
    requires AllLimbs(ds)
    ensures s + PaddedLimbs(ds, 0) == s
  {
    assert PaddedLimbs(ds, 0) == "";
  }

  /** The number of decimal digits of n, 0 for 0: the `last /= 10` loop's count. */
  function DecimalDigits(n: nat): nat {
    if n == 0 then 0 else 1 + DecimalDigits(n / 10)
  }

  lemma {:induction false} DecimalDigitsIsLength(n: nat)
    requires n > 0
    ensures DecimalDigits(n) == |DecimalText(n)|
  {
    if n >= 10 {
      DecimalDigitsIsLength(n / 10);
    }
  }

  /**
    DigitCount: 1 for an empty store, otherwise (len - 1) * 4 plus the number
    of decimal digits of the top limb; that is the length of the decimal text.
   */
  method CountDigits(x: BigInt) returns (count: nat)
    requires WellFormed(x)
    ensures count == DigitCount(x)
  {
    var ds := x.digits;
    if ds == [] {
      count := 1;
      return;
    }
    count := (|ds| - 1) * BaseDigits;
    var last: nat := ds[|ds| - 1];
    while last > 0
      invariant count + DecimalDigits(last) == (|ds| - 1) * BaseDigits + DecimalDigits(ds[|ds| - 1])
      decreases last
    {
      last := last / 10;
      count := count + 1;
    }
    DecimalDigitsIsLength(ds[|ds| - 1]);
    MagnitudeTextIsNumeral(ds);
  }

  /** operator<: signs, then limb counts, then a scan from the top limb down. */
  method LessThan(a: BigInt, b: BigInt) returns (r: bool)
    ensures r == Less(a, b)
  {
    if a.negative != b.negative {
      return a.negative;
    }
    if |a.digits| != |b.digits| {
      return (|a.digits| < |b.digits|) != a.negative;
    }
    var i := |a.digits| - 1;
    while i >= 0
      invariant -1 <= i < |a.digits|
      invariant ScanLess(a.digits, b.digits, |a.digits|, a.negative) ==
                ScanLess(a.digits, b.digits, i + 1, a.negative)
    {
      if a.digits[i] != b.digits[i] {
        return (a.digits[i] < b.digits[i]) != a.negative;
      }
      i := i - 1;
    }
    return false;
  }

  function Min(a: int, b: int): int {
    if a < b then a else b
  }

  /** One limb of the carry loop: the value gained equals (carry + addend) * Base^i. */
  lemma {:induction false} CarryStep(ds: seq<int>, i: nat, addend: int, carry: int, carryOut: int, limb: int)
    requires AllLimbs(ds) && i < |ds| && 0 <= limb < Base
    requires limb == ds[i] + carry + addend - carryOut * Base
    ensures AllLimbs(ds[i := limb])
    ensures Val(ds[i := limb]) + carryOut * BasePow(i + 1) == Val(ds) + carry * BasePow(i) + addend * BasePow(i)
  {
    ValUpdate(ds, i, limb);
    assert BasePow(i + 1) == Base * BasePow(i);
    StepArith(Val(ds), Val(ds[i := limb]), ds[i], limb, carry, addend, carryOut, BasePow(i));
  }

  lemma {:induction false} StepArith(vOld: int, vNew: int, before: int, limb: int, t1: int, t2: int, c: int, p: int)
    requires limb == before + t1 + t2 - c * Base
    requires vNew == vOld + (limb - before) * p
    ensures vNew + c * (Base * p) == vOld + t1 * p + t2 * p
  {
    var d := limb - before;
    assert d * p == t1 * p + t2 * p - c * (Base * p) by {
      assert d == t1 + t2 - c * Base;
      MulAssociates(c, Base, p);
    }
  }

  /** One limb of the borrow loop: the value lost equals (borrow + subtrahend) * Base^i. */
  lemma {:induction false} BorrowStep(ds: seq<int>, i: nat, subtrahend: int, borrow: int, borrowOut: int, limb: int)
    requires AllLimbs(ds) && i < |ds| && 0 <= limb < Base
    requires limb == ds[i] - borrow - subtrahend + borrowOut * Base
    ensures AllLimbs(ds[i := limb])
    ensures Val(ds[i := limb]) - borrowOut * BasePow(i + 1) == Val(ds) - borrow * BasePow(i) - subtrahend * BasePow(i)
  {
    ValUpdate(ds, i, limb);
    assert BasePow(i + 1) == Base * BasePow(i);
    BorrowArith(Val(ds), Val(ds[i := limb]), ds[i], limb, borrow, subtrahend, borrowOut, BasePow(i));
  }

  lemma {:induction false} BorrowArith(vOld: int, vNew: int, before: int, limb: int, t1: int, t2: int, c: int, p: int)
    requires limb == before - t1 - t2 + c * Base
    requires vNew == vOld + (limb - before) * p
    ensures vNew - c * (Base * p) == vOld - t1 * p - t2 * p
  {
    var d := limb - before;
    assert d * p == c * (Base * p) - t1 * p - t2 * p by {
      assert d == c * Base - t1 - t2;
      MulAssociates(c, Base, p);
    }
  }

  /** The prefix of an operand consumed after limb i. */
  lemma {:induction false} PrefixAdvance(other: seq<int>, i: nat)
    requires AllLimbs(other)
    ensures AllLimbs(other[..Min(i, |other|)]) && AllLimbs(other[..Min(i + 1, |other|)])
    ensures Val(other[..Min(i + 1, |other|)]) ==
      Val(other[..Min(i, |other|)]) + (if i < |other| then other[i] else 0) * BasePow(i)
  {
    if i < |other| {
      ValPrefixStep(other, i);
    }
  }

  /**
    One step of the carry loop: digits_[i] += carry + addend, then a limb of
    kBase or more gives carry 1 and loses kBase.
   */
  method AddLimbAt(ds: seq<int>, i: nat, carry: int, addend: int) returns (out: seq<int>, carryOut: int)
    requires AllLimbs(ds) && i < |ds| && 0 <= carry <= 1 && 0 <= addend < Base
    ensures |out| == |ds| && AllLimbs(out) && 0 <= carryOut <= 1
    ensures out == ds[i := out[i]]
    ensures i + 1 < |ds| ==> out[|ds| - 1] == ds[|ds| - 1]
    ensures ds[i] + carry + addend < Base ==> carryOut == 0
    ensures Val(out) + carryOut * BasePow(i + 1) == Val(ds) + carry * BasePow(i) + addend * BasePow(i)
  {
    var limb := ds[i] + carry + addend;
    carryOut := if limb >= Base then 1 else 0;
    if carryOut == 1 {
      limb := limb - Base;
    }
    CarryStep(ds, i, addend, carry, carryOut, limb);
    out := ds[i := limb];
  }

  /**
    The carry loop of += on limbs padded past both operands: add other limb
    by limb with a carry of 0 or 1, which has died out by the top zero limb.
   */
  method CarryLoop(ds: seq<int>, other: seq<int>) returns (out: seq<int>)
    requires AllLimbs(ds) && AllLimbs(other) && |other| < |ds| && ds[|ds| - 1] == 0
    ensures AllLimbs(out) && |out| == |ds| && Val(out) == Val(ds) + Val(other)
  {
    out := ds;
    var carry := 0;
    var i := 0;
    while i < |out| || carry != 0
      invariant 0 <= i <= |out| && |out| == |ds|
      invariant 0 <= carry <= 1 && (i == |out| ==> carry == 0)
      invariant AllLimbs(out)
      invariant i < |out| ==> out[|out| - 1] == 0
      invariant Val(out) + carry * BasePow(i) == Val(ds) + Val(other[..Min(i, |other|)])
      decreases |out| - i
    {
      assert i < |out|;
      if i == |out| {
        out := out + [0];
      }
      var addend := if i < |other| then other[i] else 0;
      assert i + 1 == |out| ==> out[i] + carry + addend < Base;
      PrefixAdvance(other, i);
      var next, carryOut := AddLimbAt(out, i, carry, addend);
      out, carry := next, carryOut;
      i := i + 1;
    }
    assert other[..Min(i, |other|)] == other;
  }

  /**
    The same-sign branch of +=: pad *this with zero limbs to one more than
    the longer operand, add limb by limb with a carry of 0 or 1, then
    Normalize. Every limb stays in [0, kBase), so CheckOverflow never throws,
    and the carry has died out by the top padding limb.
   */
  method AddSameSign(x: BigInt, y: BigInt) returns (r: BigInt)
    requires WellFormed(x) && WellFormed(y)
    ensures r == AddMagnitudes(x, y)
  {
    var ds := x.digits;
    var other := y.digits;
    var requiredSize := Max(|ds|, |other|) + 1;
    while |ds| < requiredSize
      invariant |x.digits| <= |ds| <= requiredSize
      invariant AllLimbs(ds) && Val(ds) == Val(x.digits)
      invariant |ds| > |x.digits| ==> ds[|ds| - 1] == 0
      decreases requiredSize - |ds|
    {
      ValPush(ds, 0);
      ds := ds + [0];
    }
    ds := CarryLoop(ds, other);
    LimbsOfSum(x, y, ds);
    r := Normalize(BigInt(ds, x.negative));
  }

  lemma {:induction false} LimbsOfSum(x: BigInt, y: BigInt, ds: seq<int>)
    requires WellFormed(x) && WellFormed(y) && AllLimbs(ds)
    requires Val(ds) == Magnitude(x) + Magnitude(y)
    ensures Normalized(BigInt(ds, x.negative)) == AddMagnitudes(x, y)
  {
    NormalizedIsSigned(ds, x.negative);
  }

  /** While |*this| >= |other|, a borrow out of the last stored limb is impossible. */
  lemma {:induction false} BorrowStaysInside(ds: seq<int>, i: nat, borrow: int)
    requires AllLimbs(ds) && i <= |ds| && 0 <= borrow <= 1
    requires Val(ds) - borrow * BasePow(i) >= 0
    ensures borrow == 1 ==> i < |ds|
  {
  }

  /**
    One step of the borrow loop: digits_[i] -= borrow + subtrahend, then a
    negative limb gives borrow 1 and gains kBase.
   */
  method SubtractLimbAt(ds: seq<int>, i: nat, borrow: int, subtrahend: int) returns (out: seq<int>, borrowOut: int)
    requires AllLimbs(ds) && i < |ds| && 0 <= borrow <= 1 && 0 <= subtrahend < Base
    ensures |out| == |ds| && AllLimbs(out) && 0 <= borrowOut <= 1
    ensures out == ds[i := out[i]]
    ensures Val(out) - borrowOut * BasePow(i + 1) == Val(ds) - borrow * BasePow(i) - subtrahend * BasePow(i)
  {
    var limb := ds[i] - (borrow + subtrahend);
    borrowOut := if limb < 0 then 1 else 0;
    if borrowOut == 1 {
      limb := limb + Base;
    }
    BorrowStep(ds, i, subtrahend, borrow, borrowOut, limb);
    out := ds[i := limb];
  }

  /**
    The borrow loop of -= when the value of ds is at least that of other:
    subtract limb by limb with a borrow of 0 or 1; no limb is ever appended.
   */
  method BorrowLoop(ds: seq<int>, other: seq<int>) returns (out: seq<int>)
    requires IsCanonical(ds) && IsCanonical(other) && Val(ds) >= Val(other)
    ensures AllLimbs(out) && |out| == |ds| && Val(out) == Val(ds) - Val(other)
  {
    out := ds;
    assert |other| <= |ds| by {
      if |ds| < |other| {
        ShorterIsSmaller(ds, other);
      }
    }
    var borrow := 0;
    var i := 0;
    while i < |other| || borrow != 0
      invariant 0 <= i <= |out| && |out| == |ds|
      invariant 0 <= borrow <= 1
      invariant AllLimbs(out)
      invariant Val(out) - borrow * BasePow(i) == Val(ds) - Val(other[..Min(i, |other|)])
      decreases |out| - i
    {
      ValPrefixAtMost(other, Min(i, |other|));
      BorrowStaysInside(out, i, borrow);
      assert i < |out|;
      if i == |out| {
        out := out + [0];
      }
      var subtrahend := if i < |other| then other[i] else 0;
      PrefixAdvance(other, i);
      out, borrow := SubtractLimbAt(out, i, borrow, subtrahend);
      i := i + 1;
    }
    assert other[..Min(i, |other|)] == other;
  }

  /**
    The borrow loop of -= (used when |*this| >= |other|): subtract limb by
    limb with a borrow of 0 or 1, then Normalize. Every limb stays in
    [0, kBase), so CheckOverflow never throws, and no limb is ever appended.
   */
  method SubtractSameSign(x: BigInt, y: BigInt) returns (r: BigInt)
    requires WellFormed(x) && WellFormed(y) && Magnitude(x) >= Magnitude(y)
    ensures r == SubtractMagnitudes(x, y)
  {
    var ds := BorrowLoop(x.digits, y.digits);
    LimbsOfDifference(x, y, ds);
    r := Normalize(BigInt(ds, x.negative));
  }

  lemma {:induction false} LimbsOfDifference(x: BigInt, y: BigInt, ds: seq<int>)
    requires WellFormed(x) && WellFormed(y) && Magnitude(x) >= Magnitude(y) && AllLimbs(ds)
    requires Val(ds) == Magnitude(x) - Magnitude(y)
    ensures Normalized(BigInt(ds, x.negative)) == SubtractMagnitudes(x, y)
  {
    NormalizedIsSigned(ds, x.negative);
  }

  /**
    The same-sign branch of -=: the borrow loop when Absolute() >=
    other.Absolute(), otherwise *this = -(other - *this), where the inner
    subtraction runs the borrow loop on other; then the closing Normalize.
   */
  method SameSignSubtract(x: BigInt, y: BigInt) returns (r: BigInt)
    requires WellFormed(x) && WellFormed(y)
    ensures r == SameSignDifference(x, y)
  {
    var less := LessThan(Absolute(x), Absolute(y));
    LessAbsolute(x, y);
    if !less {
      r := SubtractSameSign(x, y);
    } else {
      var t := SubtractSameSign(y, x);
      r := Normalize(BigInt(t.digits, !t.negative));
    }
    NormalizedCanonical(r);
    r := Normalize(r);
  }

  /**
    operator+=: same signs add magnitudes; otherwise `*this -= -other`.
    A zero other is sent down the same-sign branch, which is the correction
    that makes x += 0 terminate for negative x (see AsWrittenDispatch).
   */
  method Add(x: BigInt, y: BigInt) returns (r: BigInt)
    requires WellFormed(x) && WellFormed(y)
    ensures r == Sum(x, y)
  {
    if x.negative == y.negative || y.digits == [] {
      r := AddSameSign(x, y);
    } else {
      r := SameSignSubtract(x, Negated(y));
    }
    NormalizedCanonical(r);
    r := Normalize(r);
  }

  /** operator-=: same signs subtract magnitudes; otherwise `*this += -other`. */
  method Subtract(x: BigInt, y: BigInt) returns (r: BigInt)
    requires WellFormed(x) && WellFormed(y)
    ensures r == Difference(x, y)
  {
    if x.negative == y.negative || y.digits == [] {
      r := SameSignSubtract(x, y);
    } else {
      r := AddSameSign(x, Negated(y));
    }
    NormalizedCanonical(r);
    r := Normalize(r);
  }

  /** Two limbs multiply to at most (kBase - 1)^2, so with two more limbs a product fits below kBase^2. */
  lemma {:induction false} ProductAtMost(p: int, q: int, m: int)
    requires 0 <= p <= m && 0 <= q <= m
    ensures 0 <= p * q <= m * m
  {
    MulMonotone(p, q, m);
    MulMonotone(q, p, m);
  }

  lemma {:induction false} MulMonotone(p: int, q: int, m: int)
    requires p >= 0 && q <= m
    ensures p * q <= p * m
  {
    assert p * m - p * q == p * (m - q);
  }

  /** Scaling the consumed prefix of b by a[i] * Base^i as it grows by one limb. */
  lemma {:induction false} RowArith(ai: int, pi: int, vOld: int, vNew: int, factor: int, pj: int, pij: int)
    requires vNew == vOld + factor * pj && pij == pi * pj
    ensures ai * pi * vNew == ai * pi * vOld + ai * factor * pij
  {
    MulDistributes(ai * pi, vOld, factor * pj);
    assert (ai * pi) * (factor * pj) == (ai * factor) * (pi * pj);
  }

  lemma {:induction false} RowDone(u: int, w: int, v: int)
    ensures (u + w) * v == u * v + w * v
  {
  }

  /**
    One step of the inner loop of MultiplyHelper: the 64-bit product
    a[i] * factor + carry + result[pos] leaves product % kBase in place and
    carries product / kBase, which stays below kBase.
   */
  method MultiplyLimbAt(out: seq<int>, pos: nat, ai: int, factor: int, carry: int) returns (next: seq<int>, carryOut: int)
    requires AllLimbs(out) && pos < |out| && 0 <= ai < Base && 0 <= factor < Base && 0 <= carry < Base
    ensures |next| == |out| && AllLimbs(next) && next == out[pos := next[pos]]
    ensures 0 <= carryOut < Base && (factor == 0 && out[pos] == 0 ==> carryOut == 0)
    ensures Val(next) + carryOut * BasePow(pos + 1) == Val(out) + carry * BasePow(pos) + ai * factor * BasePow(pos)
  {
    ProductAtMost(ai, factor, Base - 1);
    var product := ai * factor + carry + out[pos];
    carryOut := product / Base;
    CarryStep(out, pos, ai * factor, carry, carryOut, product % Base);
    next := out[pos := product % Base];
  }

  /**
    The inner loop of MultiplyHelper: adds a[i] * b, shifted by i limbs, into
    res with a carry below kBase. Positions from i + |b| + 1 on are zero
    beforehand, so the final carry lands inside res and the guard
    `i + j < result.size()` always holds.
   */
  method AddRow(res: seq<int>, da: seq<int>, db: seq<int>, i: nat) returns (out: seq<int>)
    requires AllLimbs(res) && AllLimbs(da) && AllLimbs(db)
    requires i < |da| && |res| == |da| + |db|
    requires forall k :: i + |db| <= k < |res| ==> res[k] == 0
    ensures AllLimbs(out) && |out| == |res|
    ensures forall k :: i + |db| + 1 <= k < |out| ==> out[k] == 0
    ensures Val(out) == Val(res) + da[i] * BasePow(i) * Val(db)
  {
    out := res;
    var carry := 0;
    var j := 0;
    assert db[..Min(0, |db|)] == [];
    while j < |db| || carry != 0
      invariant 0 <= j <= |db| + 1 && |out| == |res|
      invariant 0 <= carry < Base && (j == |db| + 1 ==> carry == 0)
      invariant AllLimbs(out)
      invariant forall k :: i + Max(j, |db|) <= k < |out| ==> out[k] == 0
      invariant Val(out) + carry * BasePow(i + j) == Val(res) + da[i] * BasePow(i) * Val(db[..Min(j, |db|)])
      decreases |db| + 1 - j
    {
      assert j <= |db| && i + j < |out|;
      var factor := if j < |db| then db[j] else 0;
      var next, carryOut := MultiplyLimbAt(out, i + j, da[i], factor, carry);
      assert j == |db| ==> carryOut == 0;
      PrefixAdvance(db, j);
      BasePowAdd(i, j);
      RowArith(da[i], BasePow(i), Val(db[..Min(j, |db|)]), Val(db[..Min(j + 1, |db|)]),
               factor, BasePow(j), BasePow(i + j));
      assert i + (j + 1) == (i + j) + 1;
      out, carry := next, carryOut;
      j := j + 1;
    }
    assert db[..Min(j, |db|)] == db;
  }

  /**
    MultiplyHelper and operator*=: schoolbook multiplication into
    |a| + |b| zero limbs with sign a.neg != b.neg, one row per limb of a,
    then Normalize and the ceiling: more than 30009 decimal digits throws
    BigIntegerOverflow, and *this is only assigned when nothing was thrown.
   */
  method Multiply(a: BigInt, b: BigInt) returns (r: Result<BigInt>)
    requires WellFormed(a) && WellFormed(b)
    ensures r == MultiplyResult(a, b)
  {
    var da, db := a.digits, b.digits;
    var res := seq(|da| + |db|, _ => 0);
    ValAllZero(res);
    assert Val(da[..0]) == 0;
    var negative := a.negative != b.negative;
    var i := 0;
    while i < |da|
      invariant 0 <= i <= |da| && |res| == |da| + |db|
      invariant AllLimbs(res)
      invariant forall k :: i + |db| <= k < |res| ==> res[k] == 0
      invariant Val(res) == Val(da[..i]) * Val(db)
    {
      res := AddRow(res, da, db, i);
      assert Val(res) == Val(da[..i + 1]) * Val(db) by {
        ValPrefixStep(da, i);
        RowDone(Val(da[..i]), da[i] * BasePow(i), Val(db));
      }
      i := i + 1;
    }
    assert Val(res) == Magnitude(a) * Magnitude(b) by {
      assert da[..i] == da;
    }
    NormalizedIsSigned(res, negative);
    var result := Normalize(BigInt(res, negative));
    var count := CountDigits(result);
    if count > MaxProductDigits {
      r := Failure(Overflow);
    } else {
      r := Success(result);
    }
  }

  /** a = q * b + r with 0 <= r < b pins q and r down as a / b and a % b. */
  lemma {:induction false} DivModUnique(a: int, b: int, q: int, r: int)
    requires b > 0 && 0 <= r < b && a == q * b + r
    ensures q == a / b && r == a % b
  {
    var q0, r0 := a / b, a % b;
    assert (q - q0) * b == r0 - r;
    if q > q0 {
      MulMonotone(b, 1, q - q0);
    } else if q < q0 {
      MulMonotone(b, 1, q0 - q);
    }
  }

  lemma {:induction false} RemainderBelow(r: int, d: int, digit: int)
    requires r < d * (digit + 1)
    ensures r - d * digit < d
  {
  }

  /** A canonical number whose value is not negative is its own magnitude. */
  lemma {:induction false} NonNegativeValue(x: BigInt)
    requires Canonical(x) && Value(x) >= 0
    ensures !x.negative && Magnitude(x) == Value(x)
  {
    ValZeroIffEmpty(x.digits);
  }

  /** Reading limbs from position i upward: the limb at i plus kBase times the rest. */
  lemma {:induction false} ValSuffixStep(ds: seq<int>, i: nat)
    requires AllLimbs(ds) && i < |ds|
    ensures AllLimbs(ds[i..]) && AllLimbs(ds[i + 1..])
    ensures Val(ds[i..]) == ds[i] + Base * Val(ds[i + 1..])
  {
    assert ds[i..][1..] == ds[i + 1..];
  }

  /**
    One long-division step: bringing down limb ai makes the remainder
    ai + kBase * r, and taking away digit copies of the divisor restores the
    identity one limb further down.
   */
  lemma {:induction false} LongDivisionStep(ai: int, rest: int, qRest: int, d: int, r: int, digit: int)
    requires rest == qRest * d + r
    ensures ai + Base * rest == (digit + Base * qRest) * d + ((ai + Base * r) - d * digit)
  {
  }

  /** Storing quotient limb i extends the long-division identity from da[i+1..] to da[i..]. */
  lemma {:induction false} QuotientLimbStep(da: seq<int>, q: seq<int>, i: nat, digit: int, d: int, before: int, after: int)
    requires AllLimbs(da) && AllLimbs(q) && i < |da| == |q| && 0 <= digit < Base
    requires Val(da[i + 1..]) == Val(q[i + 1..]) * d + before
    requires d * digit + after == da[i] + Base * before
    ensures AllLimbs(q[i := digit]) && AllLimbs(da[i..]) && AllLimbs(q[i := digit][i..])
    ensures Val(da[i..]) == Val(q[i := digit][i..]) * d + after
  {
    ValSuffixStep(da, i);
    ValSuffixStep(q[i := digit], i);
    assert q[i := digit][i + 1..] == q[i + 1..];
    LongDivisionStep(da[i], Val(da[i + 1..]), Val(q[i + 1..]), d, before, digit);
  }

  /** A remainder below d, extended by one limb, stays below d * kBase. */
  lemma {:induction false} BroughtDownBound(ai: int, r: int, d: int)
    requires 0 <= ai < Base && 0 <= r < d
    ensures ai + Base * r < d * Base
  {
    MulMonotone(Base, r, d - 1);
  }

  /**
    A trial product |divisor| * BigInteger(m) of DivideHelper. With
    trialCeiling it goes through operator*, which throws BigIntegerOverflow
    on a product of more than 30009 digits; otherwise it is exact.
   */
  method TrialProduct(divisor: BigInt, m: int, trialCeiling: bool) returns (r: Result<BigInt>)
    requires Canonical(divisor) && !divisor.negative && 0 <= m <= Base
    ensures r.Success? ==> Canonical(r.value) && !r.value.negative && Magnitude(r.value) == Magnitude(divisor) * m
    ensures r.Failure? <==> trialCeiling && TooManyDigits(Magnitude(divisor) * m)
    ensures r.Failure? ==> r.error == Overflow
  {
    var factor := FromInt(m);
    assert Magnitude(factor) == m;
    if trialCeiling {
      r := Multiply(divisor, factor);
      MultiplyResultMeaning(divisor, factor);
    } else {
      r := Success(Product(divisor, factor));
    }
  }

  /**
    remainder.digits_.insert(begin, ai) followed by Normalize: the new
    lowest limb ai shifts the remainder up by one limb.
   */
  method InsertLimb(rem: BigInt, ai: int) returns (grown: BigInt)
    requires Canonical(rem) && !rem.negative && 0 <= ai < Base
    ensures Canonical(grown) && !grown.negative && Magnitude(grown) == ai + Base * Magnitude(rem)
  {
    assert Val([ai] + rem.digits) == ai + Base * Magnitude(rem) by {
      ValAppend([ai], rem.digits);
    }
    grown := Normalize(BigInt([ai] + rem.digits, false));
  }

  /**
    The binary search of DivideHelper over [0, kBase]: the last mid whose
    trial product |divisor| * mid is at most the remainder. Each trial goes
    through operator*, so with its digit ceiling (trialCeiling) a trial of
    30010 or more digits throws BigIntegerOverflow; the very first trial is
    mid = 5000.
   */
  method QuotientLimb(divisor: BigInt, rem: BigInt, trialCeiling: bool) returns (r: Result<int>)
    requires Canonical(divisor) && !divisor.negative && Canonical(rem) && !rem.negative
    ensures r.Success? ==> 0 <= r.value <= Base && Magnitude(divisor) * r.value <= Magnitude(rem)
    ensures r.Success? && r.value < Base ==> Magnitude(rem) < Magnitude(divisor) * (r.value + 1)
    ensures r.Failure? ==>
      trialCeiling && r.error == Overflow && TooManyDigits(Magnitude(divisor) * Base)
    ensures trialCeiling && TooManyDigits(Magnitude(divisor) * 5000) ==> r.Failure?
    ensures !trialCeiling ==> r.Success?
  {
    var d, remainder := Magnitude(divisor), Magnitude(rem);
    var left, right, digit := 0, Base, 0;
    while left <= right
      invariant 0 <= left <= right + 1 <= Base + 1
      invariant digit == if left == 0 then 0 else left - 1
      invariant left > 0 ==> d * (left - 1) <= remainder
      invariant right < Base ==> remainder < d * (right + 1)
      invariant left != 0 || right != Base ==> !(trialCeiling && TooManyDigits(d * 5000))
      decreases right - left + 1
    {
      var mid := (left + right) / 2;
      assert left == 0 && right == Base ==> mid == 5000;
      var trial := TrialProduct(divisor, mid, trialCeiling);
      if trial.Failure? {
        MulMonotone(d, mid, Base);
        TooManyDigitsMonotone(d * mid, d * Base);
        return Failure(Overflow);
      }
      var temp := trial.value;
      var above := LessThan(rem, temp);
      LessSameSign(rem, temp);
      if !above {
        digit := mid;
        left := mid + 1;
      } else {
        right := mid - 1;
      }
    }
    assert left > 0;
    r := Success(digit);
  }

  /**
    One pass of the loop of DivideHelper: insert limb ai at the bottom of the
    remainder and normalize, find the quotient limb, and subtract
    |divisor| * digit from the remainder.
   */
  method BringDown(divisor: BigInt, rem: BigInt, ai: int, trialCeiling: bool) returns (r: Result<(int, BigInt)>)
    requires Canonical(divisor) && !divisor.negative && divisor.digits != []
    requires Canonical(rem) && !rem.negative && Magnitude(rem) < Magnitude(divisor) && 0 <= ai < Base
    ensures r.Success? ==> 0 <= r.value.0 < Base && Canonical(r.value.1) && !r.value.1.negative
    ensures r.Success? ==> Magnitude(r.value.1) < Magnitude(divisor)
    ensures r.Success? ==>
      Magnitude(divisor) * r.value.0 + Magnitude(r.value.1) == ai + Base * Magnitude(rem)
    ensures r.Failure? ==> r.error == Overflow && trialCeiling
    ensures r.Failure? ==> TooManyDigits(Magnitude(divisor) * Base)
    ensures trialCeiling && TooManyDigits(Magnitude(divisor) * 5000) ==> r.Failure?
    ensures !trialCeiling ==> r.Success?
  {
    var d, before := Magnitude(divisor), Magnitude(rem);
    var grown := InsertLimb(rem, ai);
    var limb := QuotientLimb(divisor, grown, trialCeiling);
    if limb.Failure? {
      return Failure(Overflow);
    }
    var digit := limb.value;
    BroughtDownBound(ai, before, d);
    assert digit < Base;
    var t := TrialProduct(divisor, digit, trialCeiling);
    if t.Failure? {
      MulMonotone(d, digit, Base);
      TooManyDigitsMonotone(d * digit, d * Base);
      return Failure(Overflow);
    }
    var trial := t.value;
    var rest := SubtractTrial(grown, trial, d, digit);
    r := Success((digit, rest));
  }

  /** remainder -= trial, where the trial product d * digit is at most the remainder. */
  method SubtractTrial(grown: BigInt, trial: BigInt, d: int, digit: int) returns (rest: BigInt)
    requires Canonical(grown) && !grown.negative && Canonical(trial) && !trial.negative
    requires Magnitude(trial) == d * digit <= Magnitude(grown) < d * (digit + 1)
    ensures Canonical(rest) && !rest.negative
    ensures Magnitude(rest) == Magnitude(grown) - d * digit < d
  {
    DifferenceIsExact(grown, trial);
    RemainderBelow(Magnitude(grown), d, digit);
    NonNegativeValue(Difference(grown, trial));
    rest := Subtract(grown, trial);
  }

  /** Limbs q and r with |dividend| == q * |divisor| + r, r < |divisor|, normalize to the quotient and remainder. */
  lemma {:induction false} DivisionFinish(dividend: BigInt, divisor: BigInt, q: seq<int>, r: seq<int>)
    requires WellFormed(dividend) && WellFormed(divisor) && divisor.digits != []
    requires AllLimbs(q) && AllLimbs(r) && Val(r) < Magnitude(divisor)
    requires Magnitude(dividend) == Val(q) * Magnitude(divisor) + Val(r)
    ensures Normalized(BigInt(q, dividend.negative != divisor.negative)) == Quotient(dividend, divisor)
    ensures Normalized(BigInt(r, dividend.negative)) == Remainder(dividend, divisor)
  {
    ValZeroIffEmpty(divisor.digits);
    DivModUnique(Magnitude(dividend), Magnitude(divisor), Val(q), Val(r));
    NormalizedIsSigned(q, dividend.negative != divisor.negative);
    NormalizedIsSigned(r, dividend.negative);
  }

  /**
    The loop of DivideHelper: bring the limbs of da down from the most
    significant one, storing one quotient limb per step, until
    Val(da) == Val(q) * |divisor| + remainder with the remainder below |divisor|.
   */
  method LongDivision(da: seq<int>, divisor: BigInt, trialCeiling: bool) returns (r: Result<(seq<int>, BigInt)>)
    requires AllLimbs(da) && Canonical(divisor) && !divisor.negative && divisor.digits != []
    ensures r.Success? ==> AllLimbs(r.value.0) && |r.value.0| == |da|
    ensures r.Success? ==> Canonical(r.value.1) && !r.value.1.negative && Magnitude(r.value.1) < Magnitude(divisor)
    ensures r.Success? ==> Val(da) == Val(r.value.0) * Magnitude(divisor) + Magnitude(r.value.1)
    ensures r.Failure? ==> r.error == Overflow && trialCeiling && da != []
    ensures r.Failure? ==> TooManyDigits(Magnitude(divisor) * Base)
    ensures trialCeiling && da != [] && TooManyDigits(Magnitude(divisor) * 5000) ==> r.Failure?
    ensures !trialCeiling ==> r.Success?
  {
    var d := Magnitude(divisor);
    assert d > 0 by {
      ValZeroIffEmpty(divisor.digits);
    }
    var q := seq(|da|, _ => 0);
    var rem := Zero;
    var i := |da| - 1;
    while i >= 0
      invariant -1 <= i < |da| && |q| == |da|
      invariant AllLimbs(q)
      invariant Canonical(rem) && !rem.negative && Magnitude(rem) < d
      invariant Val(da[i + 1..]) == Val(q[i + 1..]) * d + Magnitude(rem)
      invariant i < |da| - 1 ==> !(trialCeiling && TooManyDigits(d * 5000))
    {
      var step := BringDown(divisor, rem, da[i], trialCeiling);
      if step.Failure? {
        return Failure(Overflow);
      }
      var (digit, rest) := step.value;
      QuotientLimbStep(da, q, i, digit, d, Magnitude(rem), Magnitude(rest));
      q := q[i := digit];
      rem := rest;
      i := i - 1;
    }
    assert da[0..] == da && q[0..] == q;
    r := Success((q, rem));
  }

  /**
    DivideHelper: brings the limbs of |dividend| down from the most
    significant one, then gives the quotient the sign
    dividend.neg != divisor.neg, the remainder the dividend's sign, and
    normalizes both. trialCeiling says whether the trial products keep the
    30009-digit ceiling of operator* (the code as written) or are exact.
   */
  method DivideHelper(dividend: BigInt, divisor: BigInt, trialCeiling: bool)
    returns (r: Result<(BigInt, BigInt)>)
    requires WellFormed(dividend) && WellFormed(divisor) && divisor.digits != []
    ensures r.Success? ==> r.value == (Quotient(dividend, divisor), Remainder(dividend, divisor))
    ensures r.Failure? ==> r.error == Overflow && trialCeiling && dividend.digits != []
    ensures r.Failure? ==> TooManyDigits(Magnitude(divisor) * Base)
    ensures trialCeiling && dividend.digits != [] && TooManyDigits(Magnitude(divisor) * 5000)
      ==> r.Failure?
    ensures !trialCeiling ==> r.Success?
  {
    var absDividend, absDivisor := Absolute(dividend), Absolute(divisor);
    var division := LongDivision(absDividend.digits, absDivisor, trialCeiling);
    if division.Failure? {
      return Failure(Overflow);
    }
    var (q, rem) := division.value;
    DivisionFinish(dividend, divisor, q, rem.digits);
    var quotient := Normalize(BigInt(q, dividend.negative != divisor.negative));
    var remainder := Normalize(BigInt(rem.digits, dividend.negative));
    r := Success((quotient, remainder));
  }

  /**
    operator/= and operator%=: CheckDivision throws BigIntegerDivisionByZero
    for an empty divisor before any work; otherwise *this becomes the
    quotient (truncated toward zero) or the remainder (sign of the dividend).
    Both use the corrected DivideHelper whose trial products are exact.
   */
  method Divide(x: BigInt, y: BigInt) returns (r: Result<BigInt>)
    requires WellFormed(x) && WellFormed(y)
    ensures y.digits == [] ==> r == Failure(DivisionByZero)
    ensures y.digits != [] ==> r == Success(Quotient(x, y))
  {
    if y.digits == [] {
      return Failure(DivisionByZero);
    }
    var qr := DivideHelper(x, y, false);
    r := Success(qr.value.0);
  }

  method Modulo(x: BigInt, y: BigInt) returns (r: Result<BigInt>)
    requires WellFormed(x) && WellFormed(y)
    ensures y.digits == [] ==> r == Failure(DivisionByZero)
    ensures y.digits != [] ==> r == Success(Remainder(x, y))
  {
    if y.digits == [] {
      return Failure(DivisionByZero);
    }
    var qr := DivideHelper(x, y, false);
    r := Success(qr.value.1);
  }

  /**
    With the ceiling of operator* on its trial products, DivideHelper throws
    BigIntegerOverflow on a dividend smaller than a divisor of 30006 digits
    or more: the first trial |divisor| * 5000 already has more than 30009
    digits, although the quotient is 0 and the remainder the dividend itself.
   */
  lemma {:induction false} DivisionTrialOverflow(x: BigInt, y: BigInt)
    requires WellFormed(x) && WellFormed(y) && y.digits != []
    requires Magnitude(x) < Magnitude(y) && Magnitude(y) * 5000 >= Pow10(MaxProductDigits)
    ensures MultiplyResult(Absolute(y), FromInt(5000)) == Failure(Overflow)
    ensures Quotient(x, y) == Zero && Value(Remainder(x, y)) == Value(x)
  {
    MultiplyResultMeaning(Absolute(y), FromInt(5000));
    assert Magnitude(FromInt(5000)) == 5000;
    ValZeroIffEmpty(y.digits);
    DivModUnique(Magnitude(x), Magnitude(y), 0, Magnitude(x));
    CanonicalByValue(Quotient(x, y), Zero);
  }

  /** 1 / 10^30008 is such an input. */
  lemma {:induction false} DivisionTrialOverflowWitness()
    ensures Magnitude(FromInt(1)) < Magnitude(Signed(Pow10(30008), false))
    ensures Magnitude(Signed(Pow10(30008), false)) * 5000 >= Pow10(MaxProductDigits)
    ensures FromInt(1).digits != [] && Signed(Pow10(30008), false).digits != []
  {
    Pow10Monotonic(1, 30008);
    Pow10Add(30008, 1);
    ValZeroIffEmpty(FromInt(1).digits);
    ValZeroIffEmpty(Signed(Pow10(30008), false).digits);
  }
}
