/**
 The arbitrary-precision integer of the driver (src/common/big_integer.cpp): a sign and a
 magnitude, both changed in place. `Value` is the integer an object stands for.
 */
module BigIntegers {
  import opened Words
  import opened Magnitude
  import opened Bits
  import opened LimbLoops
  import opened LongDivision
  import opened MagnitudeBytes
  import Precision

  /** -1, 0 or 1, as a is below, at or above b. */
  function Order(a: int, b: int): int { if a < b then -1 else if a == b then 0 else 1 }

  function Sgn(a: int): int { Order(a, 0) }

  /** The bit length of a magnitude is that of its top limb and 32 for every limb below. */
  lemma {:induction false} BitLenOfMagnitude(s: seq<Limb>)
    requires |s| > 0 && Normal(s)
    ensures BitLen(Val(s)) == BitLen(s[|s| - 1]) + 32 * (|s| - 1)
  {
    var n := |s| - 1;
    ValTop(s);
    ValBound(s[..n]);
    WeightIsTwoPower(n);
    BitLenRaised(Val(s), Val(s[..n]), s[n], 32 * n);
  }

  lemma {:induction false} WeightIsTwoPower(n: nat)
    ensures Weight(n) == Pow(2, 32 * n)
  {
    TwoPowers();
    PowMul(2, 32, n);
  }

  lemma {:induction false} BitLenRaised(v: nat, low: nat, x: nat, k: nat)
    requires x > 0 && v == low + x * Pow(2, k) && low < Pow(2, k)
    ensures BitLen(v) == BitLen(x) + k
  {
    var b, w := BitLen(x), Pow(2, k);
    BitLenBounds(x);
    assert Pow(2, b - 1 + k) <= v by {
      PowAdd(2, b - 1, k);
      MulMono(Pow(2, b - 1), x, w);
    }
    assert v < Pow(2, b + k) by {
      PowAdd(2, b, k);
      MulMono(x + 1, Pow(2, b), w);
      MulDistribute(w, x, 1);
    }
    BitLenUnique(v, b + k);
  }

  /** The index after the last limb that is not zero. */
  method TrimmedLength(s: seq<Limb>) returns (n: nat)
    ensures n <= |s| && Normal(s[..n]) && Val(s[..n]) == Val(s)
  {
    n := |s|;
    while n > 0 && s[n - 1] == 0
      invariant n <= |s|
      invariant forall k :: n <= k < |s| ==> s[k] == 0
    {
      n := n - 1;
    }
    ValTrim(s, n);
  }

  // ---------------------------------------------------------------- multiplication

  /** One limb of a product: the 64-bit accumulator does not wrap. */
  method MultiplyLimb(a: Limb, x: Limb, r: Limb, carry: Limb) returns (r': Limb, carry': Limb)
    ensures r + a * x + carry == r' + 0x1_0000_0000 * carry'
  {
    ghost var ax := a * x;
    ProductFits(a, x);
    WrapNoop(ax + r + carry);
    var product := Wrap64(a * x + r + carry);
    assert product == ax + r + carry;
    r' := Wrap32(product);
    carry' := product / 0x1_0000_0000;
  }

  lemma {:induction false} MulAddStep(vo: int, va: int, vn: int, x: int, w: int, c: int, q: int, a: int, q': int,
                                      c': int)
    requires vo + va * x == vn + w * c
    requires q + a * x + c == q' + 0x1_0000_0000 * c'
    ensures (vo + q * w) + (va + a * w) * x == (vn + q' * w) + (0x1_0000_0000 * w) * c'
  {
    calc {
      (vo + q * w) + (va + a * w) * x;
      { MulDistribute(x, va, a * w); }
      vo + va * x + q * w + (a * w) * x;
      { MulAssoc(a, w, x); MulAssoc(a, x, w); }
      vn + w * c + q * w + (a * x) * w;
      { MulDistribute(w, q + a * x, c); MulDistribute(w, q, a * x); }
      vn + (q + a * x + c) * w;
      vn + (q' + 0x1_0000_0000 * c') * w;
      { MulDistribute(w, q', 0x1_0000_0000 * c'); MulAssoc(0x1_0000_0000, c', w); MulAssoc(0x1_0000_0000, w, c'); }
      (vn + q' * w) + (0x1_0000_0000 * w) * c';
    }
  }

  lemma {:induction false} ProductStep(start: seq<Limb>, a: seq<Limb>, before: seq<Limb>, x: Limb, c: Limb,
                                       limb: Limb, carry: Limb, j: nat)
    requires j < |a| == |start| && |before| == j
    requires Val(start[..j]) + Val(a[..j]) * x == Val(before) + Weight(j) * c
    requires start[j] + a[j] * x + c == limb + 0x1_0000_0000 * carry
    ensures Val(start[..j + 1]) + Val(a[..j + 1]) * x == Val(before + [limb]) + Weight(j + 1) * carry
  {
    ValSnoc(before, limb);
    ValTake(start, j);
    ValTake(a, j);
    WeightStep(j);
    MulAddStep(Val(start[..j]), Val(a[..j]), Val(before), x, Weight(j), c, start[j], a[j], limb, carry);
  }

  /** The inner loop: a times one limb is added to the window of res at `off`. */
  method AddProduct(res: array<Limb>, off: nat, a: seq<Limb>, x: Limb) returns (carryOut: Limb)
    requires off + |a| <= res.Length
    modifies res
    ensures Val(old(res[off..off + |a|])) + Val(a) * x == Val(res[off..off + |a|]) + Weight(|a|) * carryOut
    ensures forall k :: 0 <= k < off || off + |a| <= k < res.Length ==> res[k] == old(res[k])
  {
    hide Val, Weight;
    ghost var start := res[off..off + |a|];
    var carry: Limb := 0;
    var j := 0;
    ValEmpty();
    assert start[..0] == [] && a[..0] == [] && res[off..off] == [];
    while j < |a|
      invariant 0 <= j <= |a|
      invariant forall k :: 0 <= k < off || off + j <= k < res.Length ==> res[k] == old(res[k])
      invariant Val(start[..j]) + Val(a[..j]) * x == Val(res[off..off + j]) + Weight(j) * carry
    {
      ghost var before, c := res[off..off + j], carry;
      var limb, next := MultiplyLimb(a[j], x, res[off + j], carry);
      res[off + j], carry := limb, next;
      assert res[off..off + j + 1] == before + [limb];
      ProductStep(start, a, before, x, c, limb, carry, j);
      j := j + 1;
    }
    assert start[..|a|] == start && a[..|a|] == a;
    carryOut := carry;
  }

  /** The rows below i are summed in the limbs below i + |a|; the limbs above are still zero. */
  ghost predicate RowsDone(res: seq<Limb>, a: seq<Limb>, b: seq<Limb>, i: nat) {
    |res| == |a| + |b| && i <= |b| && Val(res[..i + |a|]) == Val(a) * Val(b[..i])
    && forall k :: i + |a| <= k < |res| ==> res[k] == 0
  }

  /** One more row keeps the running product. */
  lemma {:induction false} NextRow(old': seq<Limb>, new': seq<Limb>, a: seq<Limb>, b: seq<Limb>, i: nat, carry: Limb)
    requires i < |b| && RowsDone(old', a, b, i) && |new'| == |old'|
    requires new'[..i] == old'[..i] && new'[i + |a|] == carry
    requires forall k :: i + |a| < k < |new'| ==> new'[k] == old'[k]
    requires Val(old'[i..i + |a|]) + Val(a) * b[i] == Val(new'[i..i + |a|]) + Weight(|a|) * carry
    ensures RowsDone(new', a, b, i + 1)
  {
    hide Val, Weight;
    var n, w := |a|, Weight(i);
    ValCut(old', i, n);
    ValCut(new', i, n);
    ValTake(new', i + n);
    WeightAdd(i, n);
    ValTake(b, i);
    RowStep(Val(old'[..i]), w, Val(old'[i..i + n]), Val(new'[i..i + n]), Val(a), b[i], Val(b[..i]), Weight(n), carry);
  }

  lemma {:induction false} ValCut(s: seq<Limb>, i: nat, n: nat)
    requires i + n <= |s|
    ensures Val(s[..i + n]) == Val(s[..i]) + Weight(i) * Val(s[i..i + n])
  {
    assert s[..i + n][..i] == s[..i] && s[..i + n][i..] == s[i..i + n];
    ValSplit(s[..i + n], i);
  }

  lemma {:induction false} RowStep(low: int, w: int, o: int, n: int, a: int, x: int, vb: int, wn: int, c: int)
    requires low + w * o == a * vb && o + a * x == n + wn * c
    ensures low + w * n + c * (w * wn) == a * (vb + x * w)
  {
    calc {
      a * (vb + x * w);
      { MulDistribute(a, vb, x * w); MulAssoc(a, x, w); }
      a * vb + (a * x) * w;
      low + w * o + (n + wn * c - o) * w;
      { MulDistribute(w, n + wn * c, -o); MulDistribute(w, n, wn * c); }
      low + n * w + (wn * c) * w;
      { MulAssoc(c, wn, w); }
      low + w * n + c * (w * wn);
    }
  }

  /** Schoolbook multiplication of magnitudes. */
  method MultiplyMagnitudes(a: seq<Limb>, b: seq<Limb>) returns (r: seq<Limb>)
    ensures |r| == |a| + |b| && Val(r) == Val(a) * Val(b)
  {
    hide Val, RowsDone;
    var res := new Limb[|a| + |b|](_ => 0);
    NoRows(res[..], a, b);
    var i := 0;
    while i < |b|
      invariant 0 <= i <= |b| && RowsDone(res[..], a, b, i)
    {
      ghost var before := res[..];
      var carry := AddProduct(res, i, a, b[i]);
      res[i + |a|] := carry;
      assert res[..][..i] == before[..i];
      NextRow(before, res[..], a, b, i, carry);
      i := i + 1;
    }
    r := res[..];
    AllRows(r, a, b);
  }

  lemma {:induction false} NoRows(res: seq<Limb>, a: seq<Limb>, b: seq<Limb>)
    requires |res| == |a| + |b| && forall k :: 0 <= k < |res| ==> res[k] == 0
    ensures RowsDone(res, a, b, 0)
  {
    ValZeros(res[..|a|]);
    assert b[..0] == [];
    ValEmpty();
  }

  lemma {:induction false} AllRows(res: seq<Limb>, a: seq<Limb>, b: seq<Limb>)
    requires RowsDone(res, a, b, |b|)
    ensures Val(res) == Val(a) * Val(b)
  {
    assert res[..|b| + |a|] == res && b[..|b|] == b;
  }

  // ---------------------------------------------------------------- addition

  /** Low limbs with their carry and high limbs with theirs make the whole sum. */
  lemma {:induction false} SumOfParts(low: int, high: int, a: int, w: int, low': int, c: int, high': int, wn: int,
                                      c': int)
    requires low + a == low' + w * c && high + c == high' + wn * c'
    ensures (low + w * high) + a == (low' + w * high') + (w * wn) * c'
  {
    MulDistribute(w, high, c);
    MulDistribute(w, high', wn * c');
    MulAssoc(w, wn, c');
  }

  lemma {:induction false} TwoSums(start: seq<Limb>, len: nat, a: seq<Limb>, low: seq<Limb>, c: Limb,
                                   high: seq<Limb>, c': Limb)
    requires len <= |start| && |low| == len && |high| == |start| - len
    requires Val(start[..len]) + Val(a) == Val(low) + Weight(len) * c
    requires Val(start[len..]) + c == Val(high) + Weight(|high|) * c'
    ensures Val(start) + Val(a) == Val(low + high) + Weight(|start|) * c'
  {
    hide Val, Weight;
    assert start == start[..len] + start[len..];
    ValAppend(low, high);
    ValAppend(start[..len], start[len..]);
    WeightAdd(len, |high|);
    SumOfParts(Val(start[..len]), Val(start[len..]), Val(a), Weight(len), Val(low), c, Val(high), Weight(|high|), c');
  }

  /** The magnitude, filled up with zeros where the addend is longer, plus the addend. */
  method AddMagnitudes(mag: seq<Limb>, addend: array<Limb>) returns (sum: seq<Limb>)
    requires |mag| > 0 && Normal(mag) && addend.Length > 0 && addend[addend.Length - 1] != 0
    ensures Normal(sum) && Val(sum) == Val(mag) + Val(addend[..])
  {
    hide Val, Weight;
    var len := addend.Length;
    var n := if |mag| < len then len else |mag|;
    var res := new Limb[n](i => if 0 <= i < |mag| then mag[i] else 0);
    ghost var start := res[..];
    assert Val(start) == Val(mag) by {
      assert start[..|mag|] == mag;
      ValTrim(start, |mag|);
    }
    var carry := AddIntoLimbs(res, addend);
    NormalLower(mag);
    NormalLower(addend[..]);
    LastCarry(res[..], carry, Val(start) + Val(addend[..]));
    sum := if carry != 0 then res[..] + [carry] else res[..];
  }

  /** The addend is added to the low limbs, and the carry to those above. */
  method AddIntoLimbs(res: array<Limb>, addend: array<Limb>) returns (carryOut: Limb)
    requires res != addend && addend.Length <= res.Length
    modifies res
    ensures Val(old(res[..])) + Val(addend[..]) == Val(res[..]) + Weight(res.Length) * carryOut
  {
    hide Val, Weight;
    var len := addend.Length;
    ghost var start := res[..];
    var carry := AddLimbs(res, 0, addend, len);
    ghost var c, low, high := carry, res[0..len], res[len..];
    assert high == start[len..] && start[0..len] == start[..len] && addend[..len] == addend[..];
    if carry != 0 { carry := PropagateCarry(res, len, carry); }
    assert res[0..len] == low;
    assert res[..] == low + res[len..];
    TwoSums(start, len, addend[..], low, c, res[len..], carry);
    carryOut := carry;
  }

  lemma {:induction false} LastCarry(s: seq<Limb>, carry: Limb, total: int)
    requires |s| > 0 && Val(s) + Weight(|s|) * carry == total && Weight(|s| - 1) <= total
    ensures var sum := if carry != 0 then s + [carry] else s; Normal(sum) && Val(sum) == total
  {
    hide Val, Weight;
    if carry == 0 { NormalIfLarge(s); } else { ValSnoc(s, carry); }
  }

  // ---------------------------------------------------------------- the class

  datatype Status = Done | DivisionByZero

  /** A signed product has the product of the signs and of the magnitudes. */
  lemma {:induction false} SignedProduct(s: int, a: int, t: int, b: int)
    ensures (s * t) * (a * b) == (s * a) * (t * b)
  {
    MulAssoc(s, t, a * b);
    MulAssoc(s, a, t * b);
    MulAssoc(t, a, b);
    MulAssoc(a, t, b);
  }

  /** The order of signed numbers, from signs and magnitudes. */
  lemma {:induction false} OrderOfSigned(s: int, a: nat, t: int, b: nat)
    requires (s == 1 || s == -1) && (t == 1 || t == -1)
    ensures s == t ==> Order(s * a, t * b) == s * Order(a, b)
    ensures s != t ==> Order(s * a, t * b) == if a == 0 && b == 0 then 0 else if s > t then 1 else -1
  {}

  /** What `GetMagInt` yields for limb n: the limb negated on its own, or the sign extension. */
  function MagInt(sign: int, mag: seq<Limb>, n: nat): Limb {
    if n >= |mag| then (if sign > 0 then 0 else 0xFFFF_FFFF) else Wrap32(sign * mag[n])
  }

  class BigInteger {
    var sign: int
    var mag: seq<Limb>

    ghost predicate Valid()
      reads this
    {
      (sign == 1 || sign == -1) && Normal(mag)
    }

    /** The integer this object stands for. */
    ghost function Value(): int
      reads this
    {
      sign * Val(mag)
    }

    constructor ()
      ensures Valid() && sign == 1 && mag == [] && Value() == 0
    {
      sign, mag := 1, [];
    }

    /** From bytes in either order; a zero magnitude always gets the positive sign. */
    constructor FromBytes(val: seq<Byte>, signum: int, bigEndian: bool)
      requires signum == 1 || signum == 0 || signum == -1
      ensures Normal(mag) && Val(mag) == if bigEndian then BigEndian(val) else LittleEndian(val)
      ensures sign == if mag == [] then 1 else signum
    {
      var m;
      if bigEndian { m := FromBigEndian(val); } else { m := FromLittleEndian(val); }
      sign, mag := if |m| == 0 then 1 else signum, m;
    }

    predicate IsZero()
      reads this
    {
      |mag| == 0
    }

    method Assign(val: BigInteger)
      modifies this
      ensures sign == old(val.sign) && mag == old(val.mag)
    {
      if this != val { sign, mag := val.sign, val.mag; }
    }

    method AssignUint64(val: Word64)
      modifies this
      ensures Valid() && sign == 1 && Val(mag) == val
    {
      sign := 1;
      if val == 0 {
        mag := [];
        return;
      }
      var highWord := val / 0x1_0000_0000;
      if highWord == 0 {
        mag := [Wrap32(val)];
        ValOne(val);
      } else {
        mag := [Wrap32(val), highWord];
        ValTwo(Wrap32(val), highWord);
      }
    }

    /** The negation wraps for the smallest value, which then still has the right magnitude. */
    method AssignInt64(val: Int64)
      modifies this
      ensures Valid() && Value() == val && (sign == -1 <==> val < 0)
    {
      hide Val;
      if val < 0 {
        AssignUint64(Wrap64(0 - val as int));
        sign := -1;
      } else {
        AssignUint64(Wrap64(val));
      }
    }

    method Normalize()
      modifies this`mag
      ensures Normal(mag) && Val(mag) == old(Val(mag)) && |mag| <= old(|mag|) && mag == old(mag)[..|mag|]
    {
      var n := TrimmedLength(mag);
      mag := mag[..n];
    }

    method GetBitLength() returns (bits: nat)
      requires Normal(mag)
      ensures bits == BitLen(Val(mag))
    {
      if |mag| == 0 { return 0; }
      bits := BitLengthU32(mag[|mag| - 1]);
      BitLenOfMagnitude(mag);
      if |mag| > 1 { bits := bits + (|mag| - 1) * 32; }
    }

    /**
     Compares by sign, then length, then limbs from the top. The answer is the order of the
     values, except that zeros of different signs are told apart.
     */
    method Compare(other: BigInteger, ignoreSign: bool) returns (r: int)
      requires Valid() && other.Valid()
      ensures ignoreSign ==> r == Order(Val(mag), Val(other.mag))
      ensures !ignoreSign ==>
        (r == Order(Value(), other.Value()) <==> !(mag == [] && other.mag == [] && sign != other.sign))
    {
      hide Val, Weight;
      OrderOfSigned(sign, Val(mag), other.sign, Val(other.mag));
      var mgt := 1;
      NormalZero(mag);
      NormalZero(other.mag);
      if !ignoreSign {
        if sign != other.sign { return if sign > other.sign then 1 else -1; }
        mgt := sign;
      }
      if |mag| != |other.mag| {
        if |mag| > |other.mag| { LongerIsLarger(other.mag, mag); } else { LongerIsLarger(mag, other.mag); }
        return if |mag| > |other.mag| then mgt else -mgt;
      }
      var i := |mag| - 1;
      while i >= 0
        invariant -1 <= i < |mag| && mag[i + 1..] == other.mag[i + 1..]
      {
        if mag[i] != other.mag[i] {
          if mag[i] > other.mag[i] {
            ValLess(other.mag, mag, i);
            return mgt;
          }
          ValLess(mag, other.mag, i);
          return -mgt;
        }
        assert mag[i..] == [mag[i]] + mag[i + 1..] && other.mag[i..] == [other.mag[i]] + other.mag[i + 1..];
        i := i - 1;
      }
      return 0;
    }

    /** The product may be stored in either operand. */
    method Multiply(other: BigInteger, res: BigInteger)
      requires Valid() && other.Valid()
      modifies res
      ensures res.Valid() && res.Value() == old(Value()) * old(other.Value())
      ensures res.sign == old(sign) * old(other.sign)
    {
      var product := MultiplyMagnitudes(mag, other.mag);
      SignedProduct(sign, Val(mag), other.sign, Val(other.mag));
      res.sign, res.mag := sign * other.sign, product;
      res.Normalize();
    }

    /** Adds to the magnitude; the sign stays, except that a zero becomes positive. */
    method Add(x: Word64)
      requires Valid()
      modifies this
      ensures Valid() && Val(mag) == old(Val(mag)) + x
      ensures sign == if old(mag) == [] && x != 0 then 1 else old(sign)
    {
      hide Val;
      if x == 0 { return; }
      NormalZero(mag);
      if IsZero() {
        AssignUint64(x);
        return;
      }
      var low, high := Wrap32(x), x / 0x1_0000_0000;
      var val := new Limb[if high != 0 then 2 else 1](_ => 0);
      val[0] := low;
      if high != 0 {
        val[1] := high;
        assert val[..] == [low, high];
        ValTwo(low, high);
      } else {
        assert val[..] == [low];
        ValOne(low);
      }
      var sum := AddMagnitudes(mag, val);
      mag := sum;
    }

    method Negate()
      modifies this
      ensures mag == old(mag) && sign == if old(mag) == [] then old(sign) else -old(sign)
    {
      if !IsZero() { sign := -sign; }
    }

    /** Square-and-multiply. A zero base is left as it is, whatever the exponent. */
    method Pow(exp: int)
      requires Valid()
      modifies this
      ensures Valid()
      ensures exp < 0 ==> Value() == 0 && sign == 1
      ensures exp >= 0 && old(mag) == [] ==> mag == [] && sign == old(sign)
      ensures exp >= 0 && old(mag) != [] ==> Value() == Words.Pow(old(Value()), exp)
    {
      hide Val;
      if exp < 0 {
        AssignInt64(0);
        return;
      }
      var bitsLen := GetBitLength();
      BitLenZeroOne(mag);
      if bitsLen == 0 { return; }
      if bitsLen == 1 {
        UnitPower(sign, exp);
        if exp % 2 == 0 && sign < 0 { sign := -sign; }
        return;
      }
      var multiplicant := new BigInteger();
      multiplicant.Assign(this);
      ghost var base := Value();
      AssignInt64(1);
      var mutExp := exp;
      while mutExp != 0
        invariant 0 <= mutExp && Valid() && multiplicant.Valid() && fresh(multiplicant)
        invariant Value() * Words.Pow(multiplicant.Value(), mutExp) == Words.Pow(base, exp)
      {
        ghost var x, y := Value(), multiplicant.Value();
        PowHalve(x, y, mutExp);
        if mutExp % 2 == 1 { Multiply(multiplicant, this); }
        mutExp := mutExp / 2;
        if mutExp != 0 { multiplicant.Multiply(multiplicant, multiplicant); }
      }
    }

    /** Ten to the power p: from the table while it fits 64 bits, else by squaring. */
    static method GetPowerOfTen(p: nat, res: BigInteger)
      modifies res
      ensures res.Valid() && res.sign == 1 && res.Value() == Words.Pow(10, p)
    {
      if p < 20 {
        TenPowerTable(p);
        res.AssignUint64(TenPowerU64(p));
        return;
      }
      res.AssignInt64(10);
      res.NonZero();
      res.Pow(p);
      PowPositive(10, p);
      res.NonZero();
    }

    lemma {:induction false} NonZero()
      requires Valid()
      ensures mag == [] <==> Value() == 0
      ensures Value() > 0 ==> sign == 1
      ensures Value() < 0 ==> sign == -1
    {
      NormalZero(mag);
    }

    /** The number of decimal digits, exact for every magnitude of fewer than 2^31 bits. */
    method GetPrecision() returns (digits: nat)
      requires Valid()
      ensures BitLen(Val(mag)) < 0x8000_0000 ==> digits == Precision.DigitCount(Val(mag))
    {
      hide Val, BitLen, Precision.PrecisionEstimate;
      NormalZero(mag);
      if |mag| == 0 { return 1; }
      var bits := GetBitLength();
      var r := Precision.PrecisionEstimate(bits);
      var prec := new BigInteger();
      GetPowerOfTen(r, prec);
      var order := Compare(prec, true);
      if bits < 0x8000_0000 { Precision.PrecisionExact(Val(mag)); }
      digits := if order < 0 then r else r + 1;
    }

    /** The shortest big-endian bytes of the magnitude. */
    method MagnitudeToBytes() returns (buffer: array<Byte>)
      requires Valid()
      ensures fresh(buffer) && buffer[..] == ShortestBytes(Val(mag))
    {
      hide Val, BitLen;
      var bits := GetBitLength();
      if |mag| > 0 { BitLenOfMagnitude(mag); } else { BitLenZeroOne(mag); }
      buffer := ToBytes(mag, bits);
      NormalZero(mag);
      ShortestBytesUnique(buffer[..]);
    }

    /**
     Two limbs, negated one by one, read as a signed word. Negating limb by limb loses the
     borrow from the low limb, so a negative value is 2^32 too large unless it fits one limb or
     its low limb is zero; then its low 64 bits are taken. A negative zero comes out as -1.
     */
    method ToInt64() returns (r: Int64)
      requires Valid()
      ensures sign == 1 ==> r == Signed64(Wrap64(Value()))
      ensures sign == -1 && mag == [] ==> r == -1
      ensures sign == -1 && mag != [] ==> r == Signed64(Wrap64(LimbwiseNegative(Val(mag))))
    {
      hide Val, LowWordSigned;
      if sign == 1 { LowWordPositive(mag); } else { LowWordNegative(mag); }
      r := Signed64(LowWordSigned(sign, mag));
    }

    /**
     Truncating division; the remainder is stored too when it is asked for. Any of the objects may
     coincide, except the two results; a result in place of the divisor loses a sign. Only the long
     branch can give a zero a negative sign.
     */
    method Divide(divisor: BigInteger, res: BigInteger, rem: BigInteger?, reading: Reading) returns (status: Status)
      requires Valid() && divisor.Valid() && rem != res
      modifies res, rem
      ensures status == DivisionByZero <==> old(divisor.mag) == []
      ensures status == DivisionByZero ==> unchanged(res) && (rem != null ==> unchanged(rem))
      ensures status == Done ==> res.Valid() && (rem != null ==> rem.Valid())
      ensures status == Done ==>
        (Quotient(old(Value()), old(divisor.Value())) == res.Value()
         <==> DividesRight(old(mag), old(divisor.mag), reading)
              && !SignLost(res == divisor, old(Value()), old(divisor.Value())))
      ensures status == Done && SignLost(res == divisor, old(Value()), old(divisor.Value())) ==>
        res.Value() == -Quotient(old(Value()), old(divisor.Value()))
      ensures status == Done && rem != null && DividesRight(old(mag), old(divisor.mag), reading) ==>
        rem.Value() == Remainder(old(Value()), old(divisor.Value()))
      ensures status == Done && res.mag == [] && DividesRight(old(mag), old(divisor.mag), reading) ==> res.sign == 1
      ensures status == Done && rem != null ==>
        rem.sign ==
          if Val(old(mag)) < Val(old(divisor.mag)) then old(sign)
          else if TakesLongBranch(old(mag), old(divisor.mag)) then old(sign) * old(divisor.sign)
          else if rem.Value() < 0 then -1 else 1
    {
      hide Val, Quotient, Remainder, DividesRight, EstimatesExact, Abs, BitLen;
      if |divisor.mag| == 0 { return DivisionByZero; }
      status := Done;
      ghost var a, d, u, v := Value(), divisor.Value(), mag, divisor.mag;
      var compRes := Compare(divisor, true);
      var resSign := sign * divisor.sign;
      NormalZero(v);
      SignedQuotient(sign, Val(u), divisor.sign, Val(v));
      WhenRight(u, v, reading);
      ValEmpty();
      if compRes == 0 {
        res.AssignInt64(resSign);
        if rem != null { rem.AssignInt64(0); }
        return;
      }
      if compRes == -1 {
        if rem != null { rem.Assign(this); }
        res.AssignInt64(0);
        return;
      }
      var divisorBits := divisor.GetBitLength();
      BitLenZeroOne(v);
      if divisorBits == 1 {
        res.Assign(this);
        res.sign := sign * divisor.sign;
        if rem != null { rem.AssignInt64(0); }
        return;
      }
      if |mag| <= 2 {
        DivideWords(LowWord64(mag), LowWord64(divisor.mag), resSign, res, rem);
      } else {
        DivideLong(mag, divisor.mag, resSign, res, rem, reading);
      }
    }

    /** The branch for magnitudes that fit 64-bit words. */
    static method DivideWords(u: Word64, v: Word64, resSign: int, res: BigInteger, rem: BigInteger?)
      requires 1 < v < u && (resSign == 1 || resSign == -1) && rem != res
      modifies res, rem
      ensures res.Valid() && res.Value() == resSign * (u / v)
      ensures rem != null ==> rem.Valid() && rem.Value() == resSign * (u % v) && (rem.sign == -1 <==> rem.Value() < 0)
    {
      HalfQuotient(u, v);
      res.AssignInt64(resSign * (u / v));
      if rem != null { rem.AssignInt64(resSign * (u % v)); }
    }

    /** The branch of Algorithm D. */
    static method DivideLong(u: seq<Limb>, v: seq<Limb>, resSign: int, res: BigInteger, rem: BigInteger?,
                             reading: Reading)
      requires |u| >= |v| > 0 && Normal(u) && Normal(v) && (resSign == 1 || resSign == -1) && rem != res
      modifies res, rem
      ensures res.Valid() && (rem != null ==> rem.Valid()) && Val(v) > 0
      ensures res.Value() == resSign * (Val(u) / Val(v)) <==> reading.Meant? || EstimatesExact(u, v, reading)
      ensures rem != null && (reading.Meant? || EstimatesExact(u, v, reading)) ==>
        rem.Value() == resSign * (Val(u) % Val(v))
      ensures rem != null ==> rem.sign == resSign
    {
      hide Val;
      var q, r := DivideMagnitudes(u, v, reading);
      res.sign, res.mag := resSign, q;
      res.Normalize();
      SameSign(resSign, Val(res.mag), Val(u) / Val(v));
      if rem != null {
        rem.sign, rem.mag := resSign, r;
        rem.Normalize();
      }
    }
  }

  lemma {:induction false} SameSign(s: int, a: int, b: int)
    requires s == 1 || s == -1
    ensures s * a == s * b <==> a == b
  {}

  /** A magnitude of one or two limbs as a 64-bit word. */
  function LowWord64(s: seq<Limb>): (r: Word64)
    requires 1 <= |s| <= 2
    ensures r == Val(s)
  {
    if |s| == 1 then
      assert s == [s[0]];
      ValOne(s[0]);
      s[0]
    else
      assert s == [s[0], s[1]];
      ValTwo(s[0], s[1]);
      s[0] as int + s[1] as int * 0x1_0000_0000
  }

  /** Quotient and remainder by two or more fit a signed word. */
  lemma {:induction false} HalfQuotient(u: Word64, v: Word64)
    requires 1 < v < u
    ensures u / v < 0x8000_0000_0000_0000 && u % v < 0x8000_0000_0000_0000
  {
    assert u == (u / v) * v + u % v;
    MulMono(2, v, u / v);
    DivAtLeast(u, v, 1);
    MulMono(1, u / v, v);
  }

  /** The quotient truncated toward zero. */
  function Quotient(a: int, d: int): int {
    if d == 0 then 0 else Sgn(a) * Sgn(d) * (Abs(a) / Abs(d))
  }

  /**
   The remainder that `Divide` reports. Its sign is the quotient's, except that a dividend
   smaller than the divisor is its own remainder.
   */
  function Remainder(a: int, d: int): int {
    if Abs(a) < Abs(d) then a else if d == 0 then 0 else Sgn(a) * Sgn(d) * (Abs(a) % Abs(d))
  }

  /** Neither the trivial branches nor 64-bit words will do. */
  ghost predicate TakesLongBranch(u: seq<Limb>, v: seq<Limb>) {
    Val(u) > Val(v) && Val(v) != 1 && |u| > 2
  }

  /**
   With the result in place of a divisor of 1 or -1, the divisor's sign is overwritten before it is
   read, and the quotient of a larger number comes out positive.
   */
  predicate SignLost(aliased: bool, a: int, d: int) {
    aliased && Abs(d) == 1 && Abs(a) > 1 && Sgn(a) != Sgn(d)
  }

  /** The branches that need no long division are always right. */
  ghost predicate DividesRight(u: seq<Limb>, v: seq<Limb>, reading: Reading)
    requires Normal(u) && Normal(v) && v != []
  {
    if Val(u) <= Val(v) || Val(v) == 1 || |u| <= 2 || reading.Meant? then true
    else
      assert |u| >= |v| by { if |u| < |v| { LongerIsLarger(u, v); } }
      EstimatesExact(u, v, reading)
  }

  lemma {:induction false} WhenRight(u: seq<Limb>, v: seq<Limb>, reading: Reading)
    requires Normal(u) && Normal(v) && v != []
    ensures Val(u) <= Val(v) || Val(v) == 1 || |u| <= 2 ==> DividesRight(u, v, reading)
    ensures Val(u) > Val(v) ==> |u| >= |v|
    ensures Val(u) > Val(v) && Val(v) != 1 && |u| > 2 ==>
      (DividesRight(u, v, reading) <==> reading.Meant? || EstimatesExact(u, v, reading))
  {
    hide Val;
    if |u| < |v| { LongerIsLarger(u, v); }
  }

  /** Signs and magnitudes of quotient and remainder. */
  lemma {:induction false} SignedQuotient(s: int, a: nat, t: int, d: nat)
    requires (s == 1 || s == -1) && (t == 1 || t == -1) && d > 0
    ensures Abs(s * a) == a && Abs(t * d) == d && t * d != 0
    ensures Quotient(s * a, t * d) == (s * t) * (a / d)
    ensures a >= d ==> Quotient(s * a, t * d) != 0 && Remainder(s * a, t * d) == (s * t) * (a % d)
    ensures a < d ==> a / d == 0 && Remainder(s * a, t * d) == s * a
    ensures a == d ==> a / d == 1 && a % d == 0
    ensures d == 1 ==> a / d == a && a % d == 0
  {
    if a < d { DivUnique(a, d, 0, a); } else { DivAtLeast(a, d, 1); }
    if a == d { DivUnique(a, d, 1, 0); }
    if a == 0 { assert s * a == 0; }
  }

  /** The identity of division holds exactly when the divisor's sign is harmless. */
  lemma {:induction false} DivisionIdentity(a: int, d: int)
    requires d != 0
    ensures a == Quotient(a, d) * d + Remainder(a, d) <==> d > 0 || Abs(a) < Abs(d) || Abs(a) % Abs(d) == 0
    ensures Abs(Remainder(a, d)) < Abs(d)
    ensures d > 0 ==> (Remainder(a, d) == 0 || Sgn(Remainder(a, d)) == Sgn(a))
  {
    var x, y := Abs(a), Abs(d);
    var q, r := x / y, x % y;
    assert x == q * y + r;
    if x < y {
      DivUnique(x, y, 0, x);
    } else {
      var s, t := Sgn(a), Sgn(d);
      assert (s * t * q) * d == s * (q * y) by {
        assert d == t * y && t * t == 1;
        MulAssoc(s * t, q, d);
        assert (s * t) * (q * (t * y)) == s * (q * y);
      }
    }
  }

  /** It fails for 7 and -2: the remainder -1 has the sign of the quotient -3. */
  lemma {:induction false} DivisionIdentityFails()
    ensures Quotient(7, -2) == -3 && Remainder(7, -2) == -1 && 7 != Quotient(7, -2) * -2 + Remainder(7, -2)
  {}

  /** The two lowest limbs, each negated on its own when the sign is -1. */
  function LowWordSigned(sign: int, mag: seq<Limb>): (w: Word64) {
    MagInt(sign, mag, 1) as int * 0x1_0000_0000 + MagInt(sign, mag, 0)
  }

  lemma {:induction false} LowWordPositive(mag: seq<Limb>)
    requires Normal(mag)
    ensures LowWordSigned(1, mag) == Wrap64(Val(mag))
  {
    hide Val, Weight;
    if |mag| == 0 {
      ValEmpty();
    } else if |mag| == 1 {
      assert mag == [mag[0]];
      ValOne(mag[0]);
    } else {
      var h := LowTwoLimbs(mag);
      assert Wrap32(1 * mag[0]) == mag[0] && Wrap32(1 * mag[1]) == mag[1];
      DivUnique(Val(mag), 0x1_0000_0000_0000_0000, h, mag[0] as int + mag[1] as int * 0x1_0000_0000);
    }
  }

  /** What a magnitude v stands for once its limbs are negated one by one. */
  function LimbwiseNegative(v: nat): int {
    if v < 0x1_0000_0000 || v % 0x1_0000_0000 == 0 then 0 - v else 0x1_0000_0000 - v
  }

  lemma {:induction false} LowWordNegative(mag: seq<Limb>)
    requires Normal(mag)
    ensures mag == [] ==> Signed64(LowWordSigned(-1, mag)) == -1
    ensures mag != [] ==> LowWordSigned(-1, mag) == Wrap64(LimbwiseNegative(Val(mag)))
  {
    hide Val, Weight;
    if |mag| == 1 {
      assert mag == [mag[0]];
      ValOne(mag[0]);
      assert Wrap32(-1 * mag[0] as int) == 0x1_0000_0000 - mag[0];
    } else if |mag| >= 2 {
      var h := LowTwoLimbs(mag);
      NegatedLimbs(mag[0], mag[1], h);
    }
  }

  /** Which 64-bit integers survive being stored in limbs and read back. */
  lemma {:induction false} Int64RoundTrip(val: Int64, mag: seq<Limb>)
    requires Normal(mag) && Val(mag) == Abs(val)
    ensures
      var r := Signed64(LowWordSigned(if val < 0 then -1 else 1, mag));
      && (r == val <==> val > -0x1_0000_0000 || val % 0x1_0000_0000 == 0)
      && (r == val || r == val + 0x1_0000_0000)
  {
    hide Val, LowWordSigned;
    NormalZero(mag);
    if val < 0 {
      LowWordNegative(mag);
      NegatedMultiple(val);
    } else {
      LowWordPositive(mag);
    }
  }

  lemma {:induction false} NegatedMultiple(x: int)
    ensures x % 0x1_0000_0000 == 0 <==> (-x) % 0x1_0000_0000 == 0
  {}

  /** The two low limbs and whatever lies above them. */
  lemma {:induction false} LowTwoLimbs(s: seq<Limb>) returns (h: nat)
    requires |s| >= 2 && Normal(s)
    ensures Val(s) == s[0] as int + s[1] as int * 0x1_0000_0000 + 0x1_0000_0000_0000_0000 * h
    ensures h > 0 || s[1] != 0
  {
    h := Val(s[2..]);
    ValSplit(s, 2);
    assert s[..2] == [s[0], s[1]];
    ValTwo(s[0], s[1]);
    WeightStep(0);
    WeightStep(1);
    if |s| > 2 {
      NormalZero(s[2..]);
    }
  }

  lemma {:induction false} NegatedLimbs(low: Limb, high: Limb, h: nat)
    requires h > 0 || high > 0
    ensures
      var v := low as int + high as int * 0x1_0000_0000 + 0x1_0000_0000_0000_0000 * h;
      Wrap32(-1 * high) as int * 0x1_0000_0000 + Wrap32(-1 * low) == Wrap64(LimbwiseNegative(v))
  {
    var v := low as int + high as int * 0x1_0000_0000 + 0x1_0000_0000_0000_0000 * h;
    var w := Wrap32(-1 * high) as int * 0x1_0000_0000 + Wrap32(-1 * low);
    DivUnique(v, 0x1_0000_0000, high as int + 0x1_0000_0000 * h, low);
    assert Wrap32(-1 * low) == if low == 0 then 0 else 0x1_0000_0000 - low;
    assert Wrap32(-1 * high) == if high == 0 then 0 else 0x1_0000_0000 - high;
    DivUnique(LimbwiseNegative(v), 0x1_0000_0000_0000_0000, if high == 0 then 0 - h else 0 - h - 1, w);
  }

  lemma {:induction false} BitLenZeroOne(s: seq<Limb>)
    requires Normal(s)
    ensures BitLen(Val(s)) == 0 <==> s == []
    ensures BitLen(Val(s)) == 1 <==> Val(s) == 1
  {
    NormalZero(s);
    if Val(s) > 1 { BitLenBounds(Val(s) / 2); }
  }

  lemma {:induction false} UnitPower(s: int, e: nat)
    requires s == 1 || s == -1
    ensures Pow(s, e) == if e % 2 == 0 then s * s else s
  {
    if e == 0 {
    } else {
      UnitPower(s, e - 1);
    }
  }

  /** One round of square-and-multiply keeps the product of accumulator and pending power. */
  lemma {:induction false} PowHalve(x: int, y: int, e: nat)
    requires e > 0
    ensures e % 2 == 1 ==> (x * y) * Pow(y * y, e / 2) == x * Pow(y, e)
    ensures e % 2 == 0 ==> x * Pow(y * y, e / 2) == x * Pow(y, e)
    ensures e / 2 == 0 ==> x * y == x * Pow(y, e) && e % 2 == 1
  {
    var h := e / 2;
    PowMul(y, 2, h);
    assert Pow(y, 2) == y * y by { assert Pow(y, 1) == y * Pow(y, 0); }
    if e % 2 == 1 {
      assert Pow(y, e) == y * Pow(y, e - 1) && e - 1 == 2 * h;
      MulAssoc(x, y, Pow(y * y, h));
    }
  }
}