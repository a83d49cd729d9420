/**
  Base-10000 limb sequences, least significant limb first: the digit store of
  a BigInteger. `Val` is the abstraction function from a limb sequence to the
  natural number it denotes; `ToLimbs` is its canonical inverse.
 */
module Limbs {

  /** The limb base and the number of decimal digits one limb holds. */
  const Base: int := 10000
  const BaseDigits: int := 4

  /** Every limb lies in [0, Base). */
  predicate AllLimbs(ds: seq<int>) {
    forall i :: 0 <= i < |ds| ==> 0 <= ds[i] < Base
  }

  /** No most-significant zero limb is stored. */
  predicate Trimmed(ds: seq<int>) {
    ds == [] || ds[|ds| - 1] != 0
  }

  predicate IsCanonical(ds: seq<int>) {
    AllLimbs(ds) && Trimmed(ds)
  }

  function BasePow(k: nat): (p: nat)
    ensures p >= 1
  {
    if k == 0 then 1 else Base * BasePow(k - 1)
  }

  function Pow10(k: nat): (p: nat)
    ensures p >= 1
  {
    if k == 0 then 1 else 10 * Pow10(k - 1)
  }

  /** One limb is exactly one chunk of BaseDigits decimal digits. */
  lemma {:induction false} BaseIsPow10(k: nat)
    ensures BasePow(k) == Pow10(BaseDigits * k)
    ensures Base == Pow10(BaseDigits)
  {
    assert Pow10(4) == 10000 by {
      assert Pow10(1) == 10;
      assert Pow10(2) == 100;
      assert Pow10(3) == 1000;
    }
    if k > 0 {
      BaseIsPow10(k - 1);
      Pow10Add(4, 4 * (k - 1));
      assert 4 * k == 4 + 4 * (k - 1);
    }
  }

  lemma {:induction false} Pow10Add(a: nat, b: nat)
    ensures Pow10(a + b) == Pow10(a) * Pow10(b)
  {
    if a > 0 {
      Pow10Add(a - 1, b);
      assert a + b - 1 == (a - 1) + b;
    }
  }

  lemma {:induction false} Pow10Monotonic(a: nat, b: nat)
    requires a <= b
    ensures Pow10(a) <= Pow10(b)
  {
    if a < b {
      Pow10Monotonic(a, b - 1);
    }
  }

  lemma {:induction false} BasePowAdd(a: nat, b: nat)
    ensures BasePow(a + b) == BasePow(a) * BasePow(b)
  {
    if a > 0 {
      BasePowAdd(a - 1, b);
      assert a + b - 1 == (a - 1) + b;
    }
  }

  /** The number a limb sequence denotes; it stays below Base^|ds|. */
  function Val(ds: seq<int>): (n: nat)
    requires AllLimbs(ds)
    ensures n < BasePow(|ds|)
  {
    if ds == [] then 0 else ds[0] + Base * Val(ds[1..])
  }

  lemma {:induction false} ValAppend(a: seq<int>, b: seq<int>)
    requires AllLimbs(a) && AllLimbs(b)
    ensures AllLimbs(a + b)
    ensures Val(a + b) == Val(a) + BasePow(|a|) * Val(b)
  {
    if a != [] {
      assert (a + b)[1..] == a[1..] + b;
      ValAppend(a[1..], b);
      LimbShiftArith(a[0], Val(a[1..]), BasePow(|a| - 1), Val(b));
    } else {
      assert a + b == b;
    }
  }

  /** One limb below a shifted sum, regrouped. */
  lemma {:induction false} LimbShiftArith(d: int, x: int, p: int, v: int)
    ensures d + Base * (x + p * v) == (d + Base * x) + (Base * p) * v
  {
    MulDistributes(Base, x, p * v);
    MulAssociates(Base, p, v);
  }

  lemma {:induction false} UpdateArith(d: int, x: int, e: int, p: int)
    ensures d + Base * (x + e * p) == (d + Base * x) + e * (Base * p)
  {
    MulDistributes(Base, x, e * p);
    MulAssociates(Base, e, p);
    assert Base * (e * p) == e * (Base * p);
  }

  lemma {:induction false} MulDistributes(a: int, b: int, c: int)
    ensures a * (b + c) == a * b + a * c
  {
  }

  lemma {:induction false} MulAssociates(a: int, b: int, c: int)
    ensures a * (b * c) == (a * b) * c
  {
  }

  /** Appending a most-significant limb d adds d * Base^|ds|. */
  lemma {:induction false} ValPush(ds: seq<int>, d: int)
    requires AllLimbs(ds) && 0 <= d < Base
    ensures AllLimbs(ds + [d])
    ensures Val(ds + [d]) == Val(ds) + d * BasePow(|ds|)
  {
    var one := [d];
    ValAppend(ds, one);
    assert one[1..] == [];
    assert Val(one) == d;
    var p := BasePow(|ds|);
    assert p * Val(one) == d * p;
  }

  /** The value split at the most significant limb. */
  lemma {:induction false} ValTop(ds: seq<int>)
    requires AllLimbs(ds) && ds != []
    ensures AllLimbs(ds[..|ds| - 1])
    ensures Val(ds) == Val(ds[..|ds| - 1]) + ds[|ds| - 1] * BasePow(|ds| - 1)
  {
    assert ds == ds[..|ds| - 1] + [ds[|ds| - 1]];
    ValPush(ds[..|ds| - 1], ds[|ds| - 1]);
  }

  /** Zero limbs on the most significant end do not change the value. */
  lemma {:induction false} ValZeroExtend(ds: seq<int>, k: nat)
    requires AllLimbs(ds)
    ensures AllLimbs(ds + seq(k, _ => 0))
    ensures Val(ds + seq(k, _ => 0)) == Val(ds)
  {
    var z := seq(k, _ => 0);
    ValAppend(ds, z);
    ValAllZero(z);
  }

  lemma {:induction false} ValAllZero(z: seq<int>)
    requires forall i :: 0 <= i < |z| ==> z[i] == 0
    ensures AllLimbs(z) && Val(z) == 0
  {
    if z != [] {
      ValAllZero(z[1..]);
    }
  }

  /** A non-empty trimmed sequence denotes at least Base^(|ds|-1), so it is non-zero. */
  lemma {:induction false} ValLowerBound(ds: seq<int>)
    requires IsCanonical(ds) && ds != []
    ensures Val(ds) >= BasePow(|ds| - 1) && Val(ds) > 0
  {
    ValTop(ds);
  }

  /** Val is zero exactly on the empty canonical sequence. */
  lemma {:induction false} ValZeroIffEmpty(ds: seq<int>)
    requires IsCanonical(ds)
    ensures Val(ds) == 0 <==> ds == []
  {
    if ds != [] {
      ValLowerBound(ds);
    }
  }

  /** Strips the most significant zero limbs. */
  function Trim(ds: seq<int>): (r: seq<int>)
    ensures Trimmed(r) && |r| <= |ds| && r == ds[..|r|]
    ensures forall i :: |r| <= i < |ds| ==> ds[i] == 0
  {
    if ds != [] && ds[|ds| - 1] == 0 then Trim(ds[..|ds| - 1]) else ds
  }

  lemma {:induction false} ValTrim(ds: seq<int>)
    requires AllLimbs(ds)
    ensures IsCanonical(Trim(ds)) && Val(Trim(ds)) == Val(ds)
  {
    if ds != [] && ds[|ds| - 1] == 0 {
      ValTop(ds);
      ValTrim(ds[..|ds| - 1]);
    }
  }

  /** The canonical limbs of n: what AddDigits pushes, least significant first. */
  function ToLimbs(n: nat): (ds: seq<int>)
    ensures IsCanonical(ds) && Val(ds) == n
    decreases n
  {
    if n == 0 then [] else [n % Base] + ToLimbs(n / Base)
  }

  /** A canonical limb sequence is the one ToLimbs gives for its value. */
  lemma {:induction false} ToLimbsVal(ds: seq<int>)
    requires IsCanonical(ds)
    ensures ToLimbs(Val(ds)) == ds
  {
    if ds != [] {
      ValLowerBound(ds);
      var n := Val(ds);
      assert n == ds[0] + Base * Val(ds[1..]);
      assert n % Base == ds[0] && n / Base == Val(ds[1..]);
      ToLimbsVal(ds[1..]);
    }
  }

  /** Two canonical limb sequences with the same value are equal. */
  lemma {:induction false} CanonicalUnique(a: seq<int>, b: seq<int>)
    requires IsCanonical(a) && IsCanonical(b) && Val(a) == Val(b)
    ensures a == b
  {
    ToLimbsVal(a);
    ToLimbsVal(b);
  }

  /** For canonical magnitudes, the longer one is the larger. */
  lemma {:induction false} ShorterIsSmaller(a: seq<int>, b: seq<int>)
    requires IsCanonical(a) && IsCanonical(b) && |a| < |b|
    ensures Val(a) < Val(b)
  {
    ValLowerBound(b);
    BasePowMonotonic(|a|, |b| - 1);
  }

  lemma {:induction false} BasePowMonotonic(a: nat, b: nat)
    requires a <= b
    ensures BasePow(a) <= BasePow(b)
  {
    if a < b {
      BasePowMonotonic(a, b - 1);
    }
  }

  /** Replacing limb k by v changes the value by (v - ds[k]) * Base^k. */
  lemma {:induction false} ValUpdate(ds: seq<int>, k: nat, v: int)
    requires AllLimbs(ds) && k < |ds| && 0 <= v < Base
    ensures AllLimbs(ds[k := v])
    ensures Val(ds[k := v]) == Val(ds) + (v - ds[k]) * BasePow(k)
  {
    if k == 0 {
      assert ds[k := v][1..] == ds[1..];
    } else {
      assert ds[k := v][1..] == ds[1..][k - 1 := v];
      var rest := ds[1..];
      ValUpdate(rest, k - 1, v);
      var x, p, e := Val(rest), BasePow(k - 1), v - ds[k];
      assert Val(ds[k := v]) == ds[0] + Base * (x + e * p);
      UpdateArith(ds[0], x, e, p);
    }
  }

  /** Val of a prefix grows by one limb at a time. */
  lemma {:induction false} ValPrefixStep(ds: seq<int>, k: nat)
    requires AllLimbs(ds) && k < |ds|
    ensures AllLimbs(ds[..k]) && AllLimbs(ds[..k + 1])
    ensures Val(ds[..k + 1]) == Val(ds[..k]) + ds[k] * BasePow(k)
  {
    assert ds[..k + 1] == ds[..k] + [ds[k]];
    ValPush(ds[..k], ds[k]);
  }

  /** A prefix never denotes more than the whole sequence. */
  lemma {:induction false} ValPrefixAtMost(ds: seq<int>, k: nat)
    requires AllLimbs(ds) && k <= |ds|
    ensures AllLimbs(ds[..k]) && Val(ds[..k]) <= Val(ds)
  {
    assert ds == ds[..k] + ds[k..];
    ValAppend(ds[..k], ds[k..]);
  }

  lemma {:induction false} LimbArith(low: int, high: int, p: int, b: int)
    ensures low * p + (b * p) * high == p * (low + b * high)
  {
    MulAssociates(b, p, high);
    MulDistributes(p, low, b * high);
    assert p * (b * high) == (b * p) * high;
  }

  /** One step of AddDigits: pushing v % Base and continuing with v / Base. */
  lemma {:induction false} PushLimb(ds: seq<int>, v: nat)
    requires AllLimbs(ds) && v > 0
    ensures v / Base < v
    ensures AllLimbs(ds + [v % Base]) && (v / Base > 0 || Trimmed(ds + [v % Base]))
    ensures Val(ds + [v % Base]) + BasePow(|ds| + 1) * (v / Base) == Val(ds) + BasePow(|ds|) * v
  {
    var low, high, p := v % Base, v / Base, BasePow(|ds|);
    ValPush(ds, low);
    assert BasePow(|ds| + 1) == Base * p;
    assert v == low + Base * high;
    LimbArith(low, high, p, Base);
  }
}
