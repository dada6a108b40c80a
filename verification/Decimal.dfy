/** The decimal number of the driver (src/common/decimal.cpp): an integer and a power of ten. */
module Decimals {
  import opened Words
  import opened Magnitude
  import opened LongDivision
  import opened BigIntegers
  import opened Bits

  // ---------------------------------------------------------------- the number a decimal stands for

  /** Ten to any integer power. */
  ghost function TenReal(k: int): (r: real)
    ensures r > 0.0
  {
    PowPositive(10, Abs(k));
    if k >= 0 then Pow(10, k) as real else 1.0 / (Pow(10, -k) as real)
  }

  /** The rational that an unscaled integer and a scale stand for. */
  ghost function RealOf(unscaled: int, scale: int): real {
    unscaled as real * TenReal(-scale)
  }

  ghost function RealOrder(x: real, y: real): int {
    if x < y then -1 else if x == y then 0 else 1
  }

  /** Both unscaled integers brought to the larger of the two scales, then compared. */
  function ScaledOrder(a: int, s: int, b: int, t: int): int {
    if s >= t then Order(a, b * Pow(10, s - t)) else Order(a * Pow(10, t - s), b)
  }

  /** Moving the point by d places multiplies the unscaled integer by 10^d. */
  lemma {:induction false} Rescale(a: int, s: int, d: nat)
    ensures RealOf(a * Pow(10, d), s + d) == RealOf(a, s)
  {
    hide RealOf;
    if d == 0 {
      assert a * Pow(10, d) == a;
    } else {
      Rescale(a, s, d - 1);
      var b := a * Pow(10, d - 1);
      assert a * Pow(10, d) == 10 * b by {
        MulAssoc(a, 10, Pow(10, d - 1));
        MulAssoc(10, a, Pow(10, d - 1));
      }
      RescaleOnce(b, s + (d - 1));
      assert s + (d - 1) + 1 == s + d;
    }
  }

  lemma {:induction false} RescaleOnce(b: int, s: int)
    ensures RealOf(10 * b, s + 1) == RealOf(b, s)
  {
    hide TenReal;
    TenStep(-(s + 1));
    assert -(s + 1) + 1 == -s;
    OneStep(b, TenReal(-(s + 1)), TenReal(-s));
  }

  lemma {:induction false} OneStep(b: int, x: real, y: real)
    requires y == 10.0 * x
    ensures (10 * b) as real * x == b as real * y
  {
    assert (10 * b) as real == 10.0 * (b as real);
  }

  lemma {:induction false} TenStep(k: int)
    ensures TenReal(k + 1) == 10.0 * TenReal(k)
  {
    if k >= 0 {
      assert Pow(10, k + 1) == 10 * Pow(10, k);
    } else {
      var p := Pow(10, -k - 1);
      PowPositive(10, -k - 1);
      assert Pow(10, -k) == 10 * p;
      TenInverse(p);
    }
  }

  lemma {:induction false} TenInverse(p: int)
    requires p > 0
    ensures 1.0 / (p as real) == 10.0 * (1.0 / ((10 * p) as real))
  {
    var x := p as real;
    assert (10 * p) as real == 10.0 * x;
    var y := 1.0 / (10.0 * x);
    assert y * (10.0 * x) == 1.0;
    Inverse(x, 10.0 * y);
  }

  lemma {:induction false} Inverse(x: real, y: real)
    requires x > 0.0 && y * x == 1.0
    ensures y == 1.0 / x
  {
    assert (y - 1.0 / x) * x == 0.0;
  }

  lemma {:induction false} SameScaleOrder(a: int, b: int, s: int)
    ensures RealOrder(RealOf(a, s), RealOf(b, s)) == Order(a, b)
  {
    hide TenReal;
    var t := TenReal(-s);
    RealMonotone(a, b, t);
    RealMonotone(b, a, t);
  }

  lemma {:induction false} RealMonotone(a: int, b: int, t: real)
    requires t > 0.0
    ensures a < b ==> a as real * t < b as real * t
  {
    if a < b {
      assert (b as real - a as real) * t > 0.0;
    }
  }

  /** Comparing at the larger scale is comparing the rationals. */
  lemma {:induction false} ScaledOrderIsReal(a: int, s: int, b: int, t: int)
    ensures ScaledOrder(a, s, b, t) == RealOrder(RealOf(a, s), RealOf(b, t))
  {
    if s >= t {
      Rescale(b, t, s - t);
      SameScaleOrder(a, b * Pow(10, s - t), s);
    } else {
      Rescale(a, s, t - s);
      SameScaleOrder(a * Pow(10, t - s), b, t);
    }
  }

  /** So the comparison is a total preorder on decimals of all scales. */
  lemma {:induction false} ScaledOrderPreorder(a: int, s: int, b: int, t: int, c: int, u: int)
    ensures ScaledOrder(a, s, a, s) == 0
    ensures ScaledOrder(a, s, b, t) == -ScaledOrder(b, t, a, s)
    ensures ScaledOrder(a, s, b, t) <= 0 && ScaledOrder(b, t, c, u) <= 0 ==> ScaledOrder(a, s, c, u) <= 0
  {
    hide ScaledOrder;
    ScaledOrderIsReal(a, s, a, s);
    ScaledOrderIsReal(a, s, b, t);
    ScaledOrderIsReal(b, t, a, s);
    ScaledOrderIsReal(b, t, c, u);
    ScaledOrderIsReal(a, s, c, u);
  }

  lemma {:induction false} ZeroOrder(a: int, s: int, b: int, t: int)
    ensures a == 0 && b == 0 ==> ScaledOrder(a, s, b, t) == 0
  {}

  lemma {:induction false} ScaledNonzero(a: int, d: nat)
    ensures a * Pow(10, d) == 0 <==> a == 0
    ensures a * Pow(10, 0) == a
  {
    PowPositive(10, d);
    if a > 0 { MulMono(1, a, Pow(10, d)); }
    if a < 0 { MulMono(a, -1, Pow(10, d)); }
  }

  // ---------------------------------------------------------------- which scales can be dropped

  lemma {:induction false} OddPower(d: nat)
    ensures Pow(5, d) % 2 == 1
  {
    if d == 0 {
    } else {
      OddPower(d - 1);
    }
  }

  /** 5^d fits 64 bits up to d = 27. */
  lemma {:induction false} FivesInWord(d: nat)
    ensures Pow(5, d) > 0 && (BitLen(Pow(5, d)) <= 64 <==> d <= 27)
  {
    var small, large := FivePowers();
    PowPositive(5, d);
    TwoPowers64();
    hide Pow, BitLen;
    BitLenBounds(Pow(5, d));
    var b := BitLen(Pow(5, d));
    if d <= 27 {
      PowMonotone(5, d, small);
      if b > 64 { PowMonotone(2, 64, b - 1); }
    } else {
      PowMonotone(5, large, d);
      if b <= 64 { PowMonotone(2, b, 64); }
    }
  }

  lemma {:induction false} FivePowers() returns (small: nat, large: nat)
    ensures small == 27 && Pow(5, small) == 7450580596923828125
    ensures large == 28 && Pow(5, large) == 37252902984619140625
  {
    small, large := 27, 28;
    assert Pow(5, 9) == 1953125 by {
      assert Pow(5, 3) == 125;
      PowAdd(5, 3, 3);
      PowAdd(5, 6, 3);
    }
    PowAdd(5, 9, 9);
    PowAdd(5, 18, 9);
    assert Pow(5, 28) == 5 * Pow(5, 27);
  }

  /** A power of ten of two or more limbs is its top two limbs, once shifted, up to 10^27. */
  lemma {:induction false} TensTopTwo(d: nat, v: seq<Limb>)
    requires Normal(v) && |v| >= 2 && Val(v) == Pow(10, d)
    ensures LowLimbsZero(v) <==> d <= 27
  {
    hide Pow, BitLen, Val, Weight;
    var n, f, s := |v|, Pow(5, d), Shift(v);
    FivesInWord(d);
    PowProduct(5, 2, d);
    PowPositive(2, d);
    BitLenOfMagnitude(v);
    BitLenRaised(Val(v), 0, f, d);
    var k := d + s;
    assert k + BitLen(f) == 64 + 32 * (n - 2);
    PowAdd(2, d, s);
    MulAssoc(f, Pow(2, d), Pow(2, s));
    assert Normalised(v) == f * Pow(2, k);
    WeightIsTwoPower(n - 2);
    OddPower(d);
    OddMultiple(f, k, 32 * (n - 2));
  }

  /** 2^m divides an odd number times 2^k exactly when m is at most k. */
  lemma {:induction false} OddMultiple(f: nat, k: nat, m: nat)
    requires f % 2 == 1
    ensures Pow(2, m) > 0 && ((f * Pow(2, k)) % Pow(2, m) == 0 <==> m <= k)
  {
    PowPositive(2, m);
    PowPositive(2, k);
    var x := f * Pow(2, k);
    if m <= k {
      PowAdd(2, k - m, m);
      MulAssoc(f, Pow(2, k - m), Pow(2, m));
      PowPositive(2, k - m);
      DivUnique(x, Pow(2, m), f * Pow(2, k - m), 0);
    } else if x % Pow(2, m) == 0 {
      var q, j := x / Pow(2, m), Pow(2, m - k - 1);
      assert x == q * Pow(2, m);
      PowAdd(2, m - k, k);
      assert Pow(2, m - k) == 2 * j;
      MulAssoc(q, 2 * j, Pow(2, k));
      CancelRight(f, q * (2 * j), Pow(2, k));
      EvenProduct(q, j);
    }
  }

  lemma {:induction false} EvenProduct(q: int, j: int)
    ensures (q * (2 * j)) % 2 == 0
  {
    assert q * (2 * j) == 2 * (q * j);
  }

  lemma {:induction false} CancelRight(a: int, b: int, c: int)
    requires c > 0 && a * c == b * c
    ensures a == b
  {
    if a < b { MulStrict(a, b, c); }
    if b < a { MulStrict(b, a, c); }
  }

  /** As written, every decimal survives the loss of 10 to 27 digits. */
  lemma {:induction false} DroppingIsRight(u: seq<Limb>, d: nat, reading: Reading)
    requires Normal(u) && 10 <= d <= 27
    ensures Pow(10, d) > 0 && Limbs(Pow(10, d)) != [] && DividesRight(u, Limbs(Pow(10, d)), reading)
  {
    hide Pow, Val, Limbs, EstimatesExact, LowLimbsZero;
    TwoLimbsOfTens(d);
    var v := Limbs(Pow(10, d));
    WhenRight(u, v, reading);
    if Val(u) > Val(v) && |u| > 2 {
      TensTopTwo(d, v);
      RightForEveryDividend(u, v, reading);
    }
  }

  /**
   As written, 28 or more digits cannot be dropped from every decimal: 1.99...9 with d nines
   behind the point is truncated to a wrong integer.
   */
  lemma {:induction false} DroppingIsWrong(d: nat, reading: Reading)
    requires d >= 28 && reading.AsWritten?
    ensures Pow(10, d) > 0 && Limbs(Pow(10, d)) != []
    ensures !DividesRight(Limbs(2 * Pow(10, d) - 1), Limbs(Pow(10, d)), reading)
  {
    hide Pow, Val, Limbs, EstimatesExact, LowLimbsZero;
    TwoLimbsOfTens(d);
    var v, u := Limbs(Pow(10, d)), Limbs(2 * Pow(10, d) - 1);
    WhenRight(u, v, reading);
    ThreeLimbsOfTens(d, u);
    TensTopTwo(d, v);
    WrongForSomeDividend(u, v, reading);
  }

  /** Up to nine digits the divisor is one limb, and the word in front of it decides. */
  lemma {:induction false} FewDigits(d: nat, u: seq<Limb>, reading: Reading) returns (w: seq<Limb>)
    requires 1 <= d <= 9 && reading.AsWritten? && Normal(u)
    ensures Pow(10, d) > 0 && Limbs(Pow(10, d)) != []
    ensures reading.beforeDivisor == 0 ==> DividesRight(u, Limbs(Pow(10, d)), reading)
    ensures reading.beforeDivisor != 0 ==> Normal(w) && !DividesRight(w, Limbs(Pow(10, d)), reading)
  {
    OneLimbOfTens(d);
    hide Pow, Val, Limbs, EstimatesExact, DividesRight;
    var v := Limbs(Pow(10, d));
    w := [0, 0, v[0]];
    WhenRight(u, v, reading);
    WhenRight(w, v, reading);
    if reading.beforeDivisor == 0 {
      if Val(u) > Val(v) { OneLimbRight(u, v, reading); }
    } else {
      OneLimbWrong(v[0], reading);
      LongerIsLarger(v, w);
    }
  }

  lemma {:induction false} OneLimbIfSmall(v: seq<Limb>)
    requires Normal(v) && v != [] && Val(v) < 0x1_0000_0000
    ensures |v| == 1
  {
    hide Val;
    WeightStep(0);
    NormalLower(v);
    if |v| > 1 { PowMonotone(0x1_0000_0000, 1, |v| - 1); }
  }

  lemma {:induction false} OneLimbOfTens(d: nat)
    requires 1 <= d <= 9
    ensures Pow(10, d) > 1 && var v := Limbs(Pow(10, d)); Val(v) == Pow(10, d) && |v| == 1 && v == [v[0]] && v[0] != 0
  {
    TenPowerTable(d);
    hide Pow, Limbs, Val, Weight;
    var v := Limbs(Pow(10, d));
    ValEmpty();
    if v != [] { OneLimbIfSmall(v); }
  }

  /**
   As written, d digits can be dropped from every decimal exactly when d is from 10 to 27, or is
   less and the word in front of the shifted divisor happens to be zero.
   */
  lemma {:induction false} DroppingIsRightExactly(d: nat, reading: Reading)
    requires d >= 1 && reading.AsWritten?
    ensures Pow(10, d) > 0 && Limbs(Pow(10, d)) != []
    ensures (forall u :: Normal(u) ==> DividesRight(u, Limbs(Pow(10, d)), reading))
        <==> 10 <= d <= 27 || (d <= 9 && reading.beforeDivisor == 0)
  {
    hide Pow, Limbs, DividesRight;
    PowPositive(10, d);
    if d >= 28 {
      DroppingIsWrong(d, reading);
    } else if d >= 10 {
      DroppingIsRight([], d, reading);
      forall u | Normal(u) ensures DividesRight(u, Limbs(Pow(10, d)), reading) { DroppingIsRight(u, d, reading); }
    } else {
      var w := FewDigits(d, [], reading);
      if reading.beforeDivisor == 0 {
        forall u | Normal(u) ensures DividesRight(u, Limbs(Pow(10, d)), reading) { var _ := FewDigits(d, u, reading); }
      }
    }
  }

  lemma {:induction false} TwoLimbsOfTens(d: nat)
    requires d >= 10
    ensures Pow(10, d) > 1 && |Limbs(Pow(10, d))| >= 2
  {
    var e := 10;
    TenPowerTable(e);
    hide Limbs, Val;
    PowMonotone(10, e, d);
    var v := Limbs(Pow(10, d));
    if |v| < 2 {
      ValBound(v);
      PowMonotone(0x1_0000_0000, |v|, 1);
    }
  }

  lemma {:induction false} ThreeLimbsOfTens(d: nat, u: seq<Limb>)
    requires d >= 28 && Val(u) >= Pow(10, d)
    ensures |u| > 2
  {
    var e := 19;
    TenPowerTable(e);
    PowAdd(10, e, 1);
    hide Val;
    PowMonotone(10, e + 1, d);
    if |u| <= 2 {
      ValBound(u);
      PowMonotone(0x1_0000_0000, |u|, 2);
    }
  }

  // ---------------------------------------------------------------- the whole part

  /** The integer that is left when the digits behind the point are dropped. */
  function Whole(unscaled: int, scale: int): int {
    if scale <= 0 then unscaled * Pow(10, -scale) else Quotient(unscaled, Pow(10, scale))
  }

  /** It is the decimal truncated toward zero. */
  lemma {:induction false} WholeTruncates(a: int, s: int)
    ensures var w := Whole(a, s) as real;
      if a >= 0 then w <= RealOf(a, s) < w + 1.0 else w - 1.0 < RealOf(a, s) <= w
  {
    hide RealOf, ScaledOrder, Pow;
    var w := Whole(a, s);
    WholeOrder(a, s);
    ScaledOrderIsReal(w, 0, a, s);
    ScaledOrderIsReal(w + 1, 0, a, s);
    ScaledOrderIsReal(w - 1, 0, a, s);
    WholeReal(w);
    WholeReal(w + 1);
    WholeReal(w - 1);
  }

  lemma {:induction false} WholeReal(n: int)
    ensures RealOf(n, 0) == n as real
  {}

  lemma {:induction false} WholeOrder(a: int, s: int)
    ensures var w := Whole(a, s);
      if a >= 0 then ScaledOrder(w, 0, a, s) <= 0 && ScaledOrder(w + 1, 0, a, s) > 0
      else ScaledOrder(w, 0, a, s) >= 0 && ScaledOrder(w - 1, 0, a, s) < 0
  {
    var w, t := Whole(a, s), Pow(10, Abs(s));
    PowPositive(10, Abs(s));
    if s <= 0 {
      assert s == 0 ==> t == 1;
    } else {
      hide Pow;
      var q, r := Abs(a) / t, Abs(a) % t;
      assert Abs(a) == q * t + r;
      assert w == if a >= 0 then q else -q by { if a == 0 { DivUnique(0, t, 0, 0); } }
      MulDistribute(t, w, 1);
      MulDistribute(t, w, -1);
      MulDistribute(t, q, -q);
    }
  }

  // ---------------------------------------------------------------- the class

  class Decimal {
    var scale: int
    const magnitude: BigInteger

    ghost predicate Valid()
      reads this, magnitude
    {
      magnitude.Valid()
    }

    ghost function Unscaled(): int
      reads this, magnitude
    {
      magnitude.Value()
    }

    constructor ()
      ensures Valid() && fresh(magnitude) && scale == 0 && Unscaled() == 0 && magnitude.sign == 1
    {
      scale := 0;
      magnitude := new BigInteger();
    }

    constructor FromBigInteger(val: BigInteger, scale: int)
      requires val.Valid()
      ensures Valid() && fresh(magnitude) && this.scale == scale
      ensures magnitude.sign == val.sign && magnitude.mag == val.mag
    {
      this.scale := scale;
      var m := new BigInteger();
      magnitude := m;
      new;
      m.Assign(val);
    }

    predicate IsZero()
      reads this, magnitude
    {
      magnitude.IsZero()
    }

    /**
     The value at another scale goes to res: more digits by multiplication, fewer by truncating
     division. With the scale it already has, res is left untouched.
     */
    method SetScale(newScale: int, res: Decimal, reading: Reading) returns (status: Status)
      requires Valid() && res.Valid() && (res != this ==> res.magnitude != magnitude)
      modifies res, res.magnitude
      ensures status == Done && res.Valid()
      ensures newScale == old(scale) ==> unchanged(res) && unchanged(res.magnitude)
      ensures old(scale) < newScale ==>
        res.scale == newScale && res.Unscaled() == old(Unscaled()) * Pow(10, newScale - old(scale))
      ensures old(scale) < newScale ==> res.magnitude.sign == old(magnitude.sign)
      ensures old(scale) > newScale ==> res.scale == newScale
      ensures old(scale) > newScale ==>
        var tens := Pow(10, old(scale) - newScale);
        tens > 0 && Limbs(tens) != []
        && (res.Unscaled() == Quotient(old(Unscaled()), tens)
            <==> DividesRight(old(magnitude.mag), Limbs(tens), reading))
        && (DividesRight(old(magnitude.mag), Limbs(tens), reading) ==>
              res.magnitude.mag == [] ==> res.magnitude.sign == 1)
    {
      hide Val, Limbs, Quotient, DividesRight, Pow;
      status := Done;
      if scale == newScale { return; }
      var diff := scale - newScale;
      var adjustment := new BigInteger();
      if diff > 0 {
        BigInteger.GetPowerOfTen(diff, adjustment);
        PowPositive(10, diff);
        adjustment.NonZero();
        NormalUnique(adjustment.mag, Limbs(Pow(10, diff)));
        status := magnitude.Divide(adjustment, res.magnitude, null, reading);
      } else {
        BigInteger.GetPowerOfTen(-diff, adjustment);
        magnitude.Multiply(adjustment, res.magnitude);
      }
      res.scale := newScale;
    }

    /**
     Compares the numbers, whatever the scales and the signs of zeros. Scales are only ever raised
     here, by multiplication, so the reading of the division does not matter.
     */
    method Compare(other: Decimal) returns (r: int)
      requires Valid() && other.Valid()
      ensures r == ScaledOrder(Unscaled(), scale, other.Unscaled(), other.scale)
    {
      hide Val, Pow;
      magnitude.NonZero();
      other.magnitude.NonZero();
      ZeroOrder(Unscaled(), scale, other.Unscaled(), other.scale);
      if IsZero() && other.IsZero() { return 0; }
      ScaledNonzero(Unscaled(), Abs(other.scale - scale));
      ScaledNonzero(other.Unscaled(), Abs(other.scale - scale));
      if scale == other.scale {
        r := magnitude.Compare(other.magnitude, false);
      } else if scale > other.scale {
        var scaled := new Decimal();
        var status := other.SetScale(scale, scaled, Meant);
        scaled.magnitude.NonZero();
        r := magnitude.Compare(scaled.magnitude, false);
      } else {
        var scaled := new Decimal();
        var status := SetScale(other.scale, scaled, Meant);
        scaled.magnitude.NonZero();
        r := scaled.magnitude.Compare(other.magnitude, false);
      }
    }

    /**
     The whole part in 64 bits, where the scaling is right. A negative one has the flaw of the
     integer's conversion, and a negative zero at no positive scale comes out as -1.
     */
    method ToInt64(reading: Reading) returns (r: Int64)
      requires Valid()
      ensures scale > 0 ==> Pow(10, scale) > 0 && Limbs(Pow(10, scale)) != []
      ensures
        (scale > 0 ==> DividesRight(magnitude.mag, Limbs(Pow(10, scale)), reading)) ==>
          var w := Whole(Unscaled(), scale);
          && (w > 0 || (w == 0 && (scale > 0 || magnitude.sign == 1)) ==> r == Signed64(Wrap64(w)))
          && (w == 0 && scale <= 0 && magnitude.sign == -1 ==> r == -1)
          && (w < 0 ==> r == Signed64(Wrap64(LimbwiseNegative(Abs(w)))))
    {
      hide Val, Limbs, Quotient, DividesRight, Pow;
      if scale == 0 {
        magnitude.NonZero();
        assert Whole(Unscaled(), 0) == Unscaled() by { ScaleZero(Unscaled()); }
        r := magnitude.ToInt64();
        return;
      }
      var zeroScaled := new Decimal();
      var status := SetScale(0, zeroScaled, reading);
      zeroScaled.magnitude.NonZero();
      r := zeroScaled.magnitude.ToInt64();
    }
  }

  lemma {:induction false} ScaleZero(a: int)
    ensures Whole(a, 0) == a
  {}
}
