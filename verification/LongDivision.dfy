/**
 Long division of magnitudes by Knuth's Algorithm D (The Art of Computer Programming,
 volume 2, section 4.3.1).

 The source departs from the algorithm in two places, and `Reading` says which text is meant.
 As written, the borrow of step D4 is an unsigned difference, so the correction of step D6 is
 never taken, and a divisor of one limb makes the estimate read the word in front of a buffer.
 The reading that is meant has the signed borrow and a zero limb below a one-limb divisor.
 */
module LongDivision {
  import opened Words
  import opened Magnitude
  import opened LimbLoops
  import opened Bits

  datatype Reading =
    | Meant
    | AsWritten(beforeDivisor: Limb, beforeDividend: Limb)

  // ---------------------------------------------------------------- the estimate of a digit

  /** The quotient digit that the adjusted estimate yields for a partial dividend p. */
  function Estimate(p: nat, v: nat, n: nat, low: Limb, reading: Reading): int
    requires n > 0 && v >= Weight(n - 1)
  {
    if n >= 2 then
      WeightStep(n - 2);
      DivMono(0x1_0000_0000 * Weight(n - 2), v, Weight(n - 2));
      Min(0x1_0000_0000 - 1, (p / Weight(n - 2)) / (v / Weight(n - 2)))
    else
      WeightStep(0);
      match reading
      case Meant => Min(0x1_0000_0000 - 1, p / v)
      case AsWritten(before, _) => Min(0x1_0000_0000 - 1, (p * 0x1_0000_0000 + low) / (v * 0x1_0000_0000 + before))
  }

  lemma {:induction false} DivMono(a: int, b: int, w: int)
    requires w > 0 && a <= b
    ensures a / w <= b / w
  {
    if a / w > b / w {
      assert b == (b / w) * w + b % w;
      assert a == (a / w) * w + a % w;
      MulMono(b / w + 1, a / w, w);
    }
  }

  /** x fits d times into n exactly when x * d does not exceed n. */
  lemma {:induction false} DivAtLeast(n: int, d: int, x: int)
    requires d > 0
    ensures x <= n / d <==> x * d <= n
  {
    assert n == (n / d) * d + n % d;
    if x <= n / d { MulMono(x, n / d, d); } else { MulMono(n / d + 1, x, d); }
  }

  /** The estimate from three limbs over two is the true digit or one more. */
  lemma {:induction false} EstimateBounds(p: nat, v: nat, w: int)
    requires w > 0 && 0x1_0000_0000 * w <= v && p < v * 0x1_0000_0000
    ensures v / w >= 0x1_0000_0000 && var e := Min(0x1_0000_0000 - 1, (p / w) / (v / w)); p / v <= e <= p / v + 1
  {
    var q, p3, v2 := p / v, p / w, v / w;
    DivAtLeast(v, w, 0x1_0000_0000);
    var e := Min(0x1_0000_0000 - 1, p3 / v2);
    assert q <= e by {
      DivAtLeast(p, v, 0x1_0000_0000);
      DivAtLeast(p, v, q);
      EstimateNotLess(p, v, w, q);
    }
    assert e <= q + 1 by {
      DivAtLeast(p, v, q + 1);
      DivAtLeast(p3, v2, e);
      DivAtLeast(p, w, e * v2);
      assert v == v2 * w + v % w;
      EstimateNotMuchMore(p, v, w, v2, q, e);
    }
  }

  lemma {:induction false} EstimateNotLess(p: nat, v: nat, w: int, q: nat)
    requires w > 0 && w <= v && q * v <= p
    ensures v / w > 0 && q <= (p / w) / (v / w)
  {
    var v2 := v / w;
    DivAtLeast(v, w, 1);
    assert v2 * w <= v;
    MulMono(v2 * w, v, q);
    MulAssoc(q, v2, w);
    DivAtLeast(p, w, q * v2);
    DivAtLeast(p / w, v2, q);
  }

  lemma {:induction false} EstimateNotMuchMore(p: nat, v: nat, w: int, v2: nat, q: nat, e: nat)
    requires w > 0 && 0x1_0000_0000 * w <= v < v2 * w + w
    requires p < (q + 1) * v && (e * v2) * w <= p && e < 0x1_0000_0000
    ensures e <= q + 1
  {
    if e >= q + 2 {
      MulAssoc(e, v2, w);
      MulMono(v, v2 * w + w, e);
      assert e * (v2 * w + w) == e * (v2 * w) + e * w;
      MulMono(q + 2, e, v);
      assert (q + 2) * v == (q + 1) * v + v;
      MulMono(e, 0x1_0000_0000, w);
      assert false;
    }
  }

  /** Cutting off the limbs below k leaves the limbs from k on. */
  lemma {:induction false} HighLimbs(s: seq<Limb>, k: nat)
    requires k <= |s|
    ensures Weight(k) > 0
    ensures Val(s) / Weight(k) == Val(s[k..])
    ensures Val(s) % Weight(k) == Val(s[..k])
  {
    hide Val, Weight;
    WeightStep(k);
    ValSplit(s, k);
    ValBound(s[..k]);
    MulCommute(Weight(k), Val(s[k..]));
    DivUnique(Val(s), Weight(k), Val(s[k..]), Val(s[..k]));
  }

  lemma {:induction false} ValThree(x: Limb, y: Limb, z: Limb)
    ensures Val([x, y, z]) == (z * 0x1_0000_0000 + y) * 0x1_0000_0000 + x
  {
    assert [x, y, z] == [x, y] + [z];
    ValTwo(x, y);
    ValSnoc([x, y], z);
    WeightStep(0);
    WeightStep(1);
  }

  /** The two limbs at the top of a divisor of n limbs. */
  lemma {:induction false} TopTwo(s: seq<Limb>, n: nat)
    requires 2 <= n == |s|
    ensures Weight(n - 2) > 0 && Val(s) / Weight(n - 2) == s[n - 1] as int * 0x1_0000_0000 + s[n - 2]
  {
    HighLimbs(s, n - 2);
    assert s[n - 2..] == [s[n - 2], s[n - 1]];
    ValTwo(s[n - 2], s[n - 1]);
  }

  /** The three limbs at the top of a window of n + 1 limbs. */
  lemma {:induction false} TopThree(s: seq<Limb>, n: nat)
    requires 2 <= n && n + 1 == |s|
    ensures Weight(n - 2) > 0
    ensures Val(s) / Weight(n - 2) == (s[n] as int * 0x1_0000_0000 + s[n - 1]) * 0x1_0000_0000 + s[n - 2]
  {
    HighLimbs(s, n - 2);
    assert s[n - 2..] == [s[n - 2], s[n - 1], s[n]];
    ValThree(s[n - 2], s[n - 1], s[n]);
  }

  /** A partial dividend below v * 2^32 has a top limb not above the divisor's. */
  lemma {:induction false} TopLimbBound(s: seq<Limb>, v: seq<Limb>)
    requires |v| > 0 && |s| == |v| + 1 && Val(s) < Val(v) * 0x1_0000_0000
    ensures s[|v|] <= v[|v| - 1]
  {
    var n := |v|;
    var w := Weight(n - 1);
    WeightStep(n - 1);
    ValBound(v[..n - 1]);
    ValTop(v);
    ValTop(s);
    hide Val, Weight;
    TopDigitSmall(Val(s), Val(s[..n]), s[n], Val(v), Val(v[..n - 1]), v[n - 1], w);
  }

  lemma {:induction false} TopDigitSmall(p: int, low: int, x: int, v: int, low': int, y: int, w: int)
    requires w > 0 && p == low + x * (0x1_0000_0000 * w) && 0 <= low
    requires v == low' + y * w && low' < w && p < v * 0x1_0000_0000
    ensures x <= y
  {
    if x > y {
      MulMono(y + 1, x, 0x1_0000_0000 * w);
      MulAssoc(y + 1, 0x1_0000_0000, w);
      MulAssoc(0x1_0000_0000, y + 1, w);
      MulDistribute(w, y, 1);
    }
  }

  /** t is the quotient of n by d, said without a division. */
  predicate IsQuotient(t: int, n: int, d: int) {
    t * d <= n < (t + 1) * d
  }

  /** A rejected estimate is too large. */
  lemma {:induction false} EstimateTest(base: int, v1: Limb, v2: Limb, low: Limb, qhat: int, rhat: int, t: int)
    requires v1 > 0 && base == qhat * v1 + rhat
    requires IsQuotient(t, base * 0x1_0000_0000 + low, v1 * 0x1_0000_0000 + v2)
    ensures qhat * v2 > 0x1_0000_0000 * rhat + low <==> t < qhat
  {
    var d := v1 * 0x1_0000_0000 + v2;
    assert qhat * d == (qhat * v1) * 0x1_0000_0000 + qhat * v2 by {
      assert qhat * d == qhat * (v1 * 0x1_0000_0000) + qhat * v2;
      MulAssoc(qhat, v1, 0x1_0000_0000);
    }
    if t < qhat { MulMono(t + 1, qhat, d); } else { MulMono(qhat, t, d); }
  }

  /** The first estimate, one limb into two, is never too small. */
  lemma {:induction false} FirstEstimate(base: nat, v1: Limb, v2: Limb, low: Limb, q1: nat, t: int)
    requires v1 > 0 && IsQuotient(q1, base, v1)
    requires IsQuotient(t, base * 0x1_0000_0000 + low, v1 * 0x1_0000_0000 + v2)
    ensures t <= q1
  {
    if t > q1 {
      var d := v1 * 0x1_0000_0000 + v2;
      MulMono(q1 + 1, t, d);
      assert (q1 + 1) * d == ((q1 + 1) * v1) * 0x1_0000_0000 + (q1 + 1) * v2 by {
        assert (q1 + 1) * d == (q1 + 1) * (v1 * 0x1_0000_0000) + (q1 + 1) * v2;
        MulAssoc(q1 + 1, v1, 0x1_0000_0000);
      }
      MulNonneg(q1 + 1, v2);
      MulMono(base + 1, (q1 + 1) * v1, 0x1_0000_0000);
      assert false;
    }
  }

  /** A remainder of 2^32 or more ends the adjustment: the estimate then passes the test. */
  lemma {:induction false} LargeRemainder(base: nat, v1: Limb, v2: Limb, low: Limb, qhat: nat, rhat: int, t: int)
    requires v1 > 0 && base == qhat * v1 + rhat && rhat >= 0x1_0000_0000 && base < v1 * 0x1_0000_0000 + 0x1_0000_0000
    requires IsQuotient(t, base * 0x1_0000_0000 + low, v1 * 0x1_0000_0000 + v2)
    ensures qhat < 0x1_0000_0000 && qhat <= t
  {
    if qhat >= 0x1_0000_0000 { MulMono(0x1_0000_0000, qhat, v1); }
    EstimateTest(base, v1, v2, low, qhat, rhat, t);
    MulMono(qhat, 0x1_0000_0000 - 1, v2);
    MulMono(v2, 0x1_0000_0000 - 1, 0x1_0000_0000 - 1);
  }

  /**
   Step D3. The estimate is adjusted at most twice, no 64-bit product of the test wraps, and for
   a top limb not above the divisor's the result is the quotient of three limbs by two, capped.
   */
  method EstimateDigit(hi: Limb, mid: Limb, low: Limb, v1: Limb, v2: Limb)
    returns (qhat32: Limb, ghost adjustments: nat)
    requires v1 >= 0x8000_0000
    ensures hi <= v1 ==>
      qhat32 == Min(0x1_0000_0000 - 1,
                    ((hi * 0x1_0000_0000 + mid) * 0x1_0000_0000 + low) / (v1 * 0x1_0000_0000 + v2))
    ensures adjustments <= 2
  {
    ghost var t := QuotientOf((hi * 0x1_0000_0000 + mid) * 0x1_0000_0000 + low, v1 * 0x1_0000_0000 + v2);
    qhat32, adjustments := AdjustEstimate(hi * 0x1_0000_0000 + mid, low, v1, v2, t);
  }

  lemma {:induction false} QuotientOf(n: nat, d: int) returns (t: nat)
    requires d > 0
    ensures t == n / d && IsQuotient(t, n, d)
  {
    t := n / d;
    DivAtLeast(n, d, t);
    DivAtLeast(n, d, t + 1);
  }

  lemma {:induction false} QuotientAndRemainder(p: nat, v: nat) returns (q: nat, r: nat)
    requires v > 0
    ensures q == p / v && r == p % v && p == q * v + r && r < v
  {
    q, r := p / v, p % v;
  }

  method FirstQuotient(base: Word64, v1: Limb) returns (qhat: nat, rhat: nat)
    requires v1 > 0
    ensures Splits(base, qhat, v1, rhat) && rhat < v1
  {
    qhat, rhat := base / v1, base % v1;
  }

  /** qhat and rhat are a quotient and a remainder, perhaps too large, of base by v1. */
  ghost predicate Splits(base: int, qhat: int, v1: int, rhat: int) {
    base == qhat * v1 + rhat
  }

  lemma {:induction false} SplitsLess(base: int, qhat: int, v1: int, rhat: int)
    requires Splits(base, qhat, v1, rhat)
    ensures Splits(base, qhat - 1, v1, rhat + v1)
  {
    MulDistribute(v1, qhat, -1);
  }

  lemma {:induction false} TestTells(base: nat, v1: Limb, v2: Limb, low: Limb, qhat: nat, rhat: nat, t: nat)
    requires v1 > 0 && rhat < 0x1_0000_0000 && Splits(base, qhat, v1, rhat)
    requires IsQuotient(t, base * 0x1_0000_0000 + low, v1 * 0x1_0000_0000 + v2)
    ensures Rejected(qhat, rhat, low, v2) <==> qhat >= 0x1_0000_0000 || t < qhat
  {
    hide Rejected, IsQuotient;
    EstimateTest(base, v1, v2, low, qhat, rhat, t);
  }

  lemma {:induction false} FirstIsNotLess(base: nat, v1: Limb, v2: Limb, low: Limb, qhat: nat, rhat: nat, t: nat)
    requires v1 > 0 && rhat < v1 && Splits(base, qhat, v1, rhat)
    requires IsQuotient(t, base * 0x1_0000_0000 + low, v1 * 0x1_0000_0000 + v2)
    ensures t <= qhat
  {
    MulDistribute(v1, qhat, 1);
    FirstEstimate(base, v1, v2, low, qhat, t);
  }

  lemma {:induction false} LargeEnds(base: nat, v1: Limb, v2: Limb, low: Limb, qhat: nat, rhat: nat, t: nat)
    requires v1 > 0 && rhat >= 0x1_0000_0000 && base < v1 * 0x1_0000_0000 + 0x1_0000_0000
    requires Splits(base, qhat, v1, rhat)
    requires IsQuotient(t, base * 0x1_0000_0000 + low, v1 * 0x1_0000_0000 + v2)
    ensures qhat < 0x1_0000_0000 && qhat <= t
  {
    hide IsQuotient;
    LargeRemainder(base, v1, v2, low, qhat, rhat, t);
  }

  /** The adjustment loop, with the quotient of three limbs by two given as t. */
  method AdjustEstimate(base: Word64, low: Limb, v1: Limb, v2: Limb, ghost t: nat)
    returns (qhat32: Limb, ghost adjustments: nat)
    requires v1 >= 0x8000_0000 && IsQuotient(t, base * 0x1_0000_0000 + low, v1 * 0x1_0000_0000 + v2)
    ensures base < v1 * 0x1_0000_0000 + 0x1_0000_0000 ==> qhat32 == Min(0x1_0000_0000 - 1, t)
    ensures adjustments <= 2
  {
    hide Rejected, IsQuotient, Splits;
    var qhat, rhat := FirstQuotient(base, v1);
    FirstIsNotLess(base, v1, v2, low, qhat, rhat, t);
    adjustments := 0;
    while true
      invariant 0 <= rhat < 0x1_0000_0000 && Splits(base, qhat, v1, rhat)
      invariant Min(0x1_0000_0000 - 1, t) <= qhat
      invariant adjustments <= 1 && (adjustments == 1 ==> v1 <= rhat)
      decreases qhat
    {
      TestTells(base, v1, v2, low, qhat, rhat, t);
      if !Rejected(qhat, rhat, low, v2) { break; }
      SplitsLess(base, qhat, v1, rhat);
      qhat := qhat - 1;
      rhat := rhat + v1;
      adjustments := adjustments + 1;
      if rhat > 0x1_0000_0000 - 1 {
        if base < v1 * 0x1_0000_0000 + 0x1_0000_0000 { LargeEnds(base, v1, v2, low, qhat, rhat, t); }
        break;
      }
    }
    qhat32 := Wrap32(qhat);
  }

  /** The test of step D3: where it multiplies, the estimate fits 32 bits and nothing wraps. */
  predicate Rejected(qhat: nat, rhat: Limb, low: Limb, v2: Limb)
    ensures Rejected(qhat, rhat, low, v2) <==> qhat >= 0x1_0000_0000 || qhat * v2 > 0x1_0000_0000 * rhat + low
  {
    if qhat >= 0x1_0000_0000 then true
    else
      ProductFits(qhat, v2);
      WrapNoop(qhat * v2);
      Wrap64(qhat * v2) > Wrap64(0x1_0000_0000 * rhat + low)
  }

  // ---------------------------------------------------------------- one quotient digit

  /** The limb that the estimate reads below the top two of the partial dividend. */
  function LowWord(below: Limb, i: nat, reading: Reading): Limb {
    if i > 0 then below else match reading case Meant => 0 case AsWritten(_, b) => b
  }

  /** The arguments that the source hands to the estimate make it `Estimate`. */
  lemma {:induction false} EstimateArguments(s: seq<Limb>, v: seq<Limb>, low: Limb, reading: Reading)
    requires |v| > 0 && |s| == |v| + 1 && v[|v| - 1] >= 0x8000_0000
    ensures Val(v) >= Weight(|v| - 1)
    ensures
      var n := |v|;
      var l, v2 := Below(s, n, low, reading), SecondLimb(v, reading);
      Min(0x1_0000_0000 - 1, ((s[n] * 0x1_0000_0000 + s[n - 1]) * 0x1_0000_0000 + l) / (v[n - 1] * 0x1_0000_0000 + v2))
      == Estimate(Val(s), Val(v), n, low, reading)
  {
    NormalLower(v);
    var n := |v|;
    if n >= 2 {
      TopThree(s, n);
      TopTwo(v, n);
    } else {
      ValOne(v[0]);
      ValTwo(s[0], s[1]);
      assert v == [v[0]] && s == [s[0], s[1]];
      if reading.Meant? {
        LowWordDropped(Val(s), Val(v), 0);
      }
    }
  }

  /** A low word below a divisor whose low word is zero does not matter. */
  lemma {:induction false} LowWordDropped(p: nat, v: nat, low: Limb)
    requires v > 0
    ensures (p * 0x1_0000_0000 + low) / (v * 0x1_0000_0000 + 0) == p / v
  {
    var q, r := p / v, p % v;
    assert p == q * v + r;
    MulAssoc(q, v, 0x1_0000_0000);
    DivUnique(p * 0x1_0000_0000 + low, v * 0x1_0000_0000, q, r * 0x1_0000_0000 + low);
  }

  function Below(s: seq<Limb>, n: nat, low: Limb, reading: Reading): Limb
    requires 0 < n < |s|
  {
    if n >= 2 then s[n - 2] else match reading case Meant => 0 case AsWritten(_, _) => low
  }

  function SecondLimb(v: seq<Limb>, reading: Reading): Limb
    requires |v| > 0
  {
    if |v| >= 2 then v[|v| - 2] else match reading case Meant => 0 case AsWritten(before, _) => before
  }

  /** Step D4: what the window holds once x times the divisor is taken away from q * v + r. */
  lemma {:induction false} AfterSubtract(q: int, r: int, v: int, w: int, x: int, low0: int, low: int, top: int,
                                         borrow: int)
    requires 0 <= r < v < w && q * v + r == low0 + top * w
    requires low0 - v * x == low - w * borrow && 0 <= low < w
    ensures x == q ==> top - borrow == 0 && low == r
    ensures x == q + 1 ==> top - borrow == -1 && low == r - v + w
  {
    var c := top - borrow;
    assert w * c == top * w - w * borrow;
    if x == q {
      assert low + w * c == r;
      WholeLimbs(low, w, c, r);
    } else if x == q + 1 {
      assert v * (q + 1) == q * v + v;
      assert low + w * c == r - v;
      WholeLimbs(low, w, c, r - v);
    }
  }

  lemma {:induction false} WholeLimbs(low: int, w: int, c: int, t: int)
    requires 0 <= low < w && low + w * c == t && -w <= t < w
    ensures if t >= 0 then c == 0 && low == t else c == -1 && low == t + w
  {
    if c >= 1 { MulMono(1, c, w); }
    if c == -1 { assert w * c == -w; }
    if c <= -2 { MulMono(c, -2, w); }
  }

  /** Step D6: the carry out of the correction is the 1 that cancels the borrow. */
  lemma {:induction false} AfterAddBack(r: int, v: int, w: int, before: int, after: int, carry: int)
    requires 0 <= r < v < w && before == r - v + w && before + v == after + w * carry
    requires 0 <= after < w && 0 <= carry <= 1
    ensures carry == 1 && after == r
  {}

  /** Step D3 on the window at i, reading the limbs that the source reads. */
  method EstimateAt(nu: array<Limb>, i: nat, nv: array<Limb>, reading: Reading) returns (digit: Limb)
    requires nv.Length > 0 && i + nv.Length < nu.Length && nv[nv.Length - 1] >= 0x8000_0000
    ensures Val(nv[..]) >= Weight(nv.Length - 1)
    ensures Val(nu[i..i + nv.Length + 1]) < Val(nv[..]) * 0x1_0000_0000 ==>
      digit == Estimate(Val(nu[i..i + nv.Length + 1]), Val(nv[..]), nv.Length,
                        LowWord(if i > 0 then nu[i - 1] else 0, i, reading), reading)
  {
    hide Val, Weight, Estimate;
    var n := nv.Length;
    var low := if i > 0 then nu[i - 1] else match reading case Meant => 0 case AsWritten(_, before) => before;
    ghost var s := nu[i..i + n + 1];
    EstimateArguments(s, nv[..], low, reading);
    if Val(s) < Val(nv[..]) * 0x1_0000_0000 { TopLimbBound(s, nv[..]); }
    var below := if n >= 2 then nu[i + n - 2] else match reading case Meant => 0 case AsWritten(_, _) => low;
    var second := if n >= 2 then nv[n - 2] else match reading case Meant => 0 case AsWritten(before, _) => before;
    ghost var adjustments;
    digit, adjustments := EstimateDigit(nu[i + n], nu[i + n - 1], below, nv[n - 1], second);
  }

  /** Steps D4 to D6 on the window at i, which holds q * v + r. */
  method SubtractAndCorrect(nu: array<Limb>, i: nat, nv: array<Limb>, qhat: Limb, reading: Reading, ghost q: nat,
                            ghost r: nat)
    returns (digit: Limb)
    requires nu != nv && nv.Length > 0 && i + nv.Length < nu.Length
    requires r < Val(nv[..]) && Val(nu[i..i + nv.Length + 1]) == q * Val(nv[..]) + r
    modifies nu
    ensures forall k :: 0 <= k < i || i + nv.Length < k < nu.Length ==> nu[k] == old(nu[k])
    ensures reading.AsWritten? ==> digit == qhat
    ensures qhat == q || (reading.Meant? && qhat == q + 1) ==> digit == q && Val(nu[i..i + nv.Length]) == r
  {
    hide Val, Weight;
    var n := nv.Length;
    ghost var v, w, top, low0 := Val(nv[..]), Weight(n), nu[i + n], Val(nu[i..i + n]);
    assert nu[i..i + n + 1] == nu[i..i + n] + [nu[i + n]] && nv[..n] == nv[..];
    ValSnoc(nu[i..i + n], nu[i + n]);
    ValBound(nv[..]);
    digit := qhat;
    var borrow := MultiplyAndSubstruct(nu, i, nv, n, qhat);
    ghost var low := Val(nu[i..i + n]);
    ValBound(nu[i..i + n]);
    AfterSubtract(q, r, v, w, qhat, low0, low, top, borrow);
    var difference := if reading.Meant? then nu[i + n] - borrow else Wrap32(nu[i + n] - borrow);
    ghost var window := nu[i..i + n];
    nu[i + n] := Wrap32(difference);
    assert nu[i..i + n] == window;
    if difference < 0 {
      digit := Wrap32(digit - 1);
      var carry := AddLimbs(nu, i, nv, n);
      ValBound(nu[i..i + n]);
      if qhat == q + 1 { AfterAddBack(r, v, w, low, Val(nu[i..i + n]), carry); }
    }
  }

  /** What one pass of the main loop makes of the window `before`. */
  ghost predicate DigitDone(before: seq<Limb>, vs: seq<Limb>, low: Limb, reading: Reading, digit: Limb,
                            after: seq<Limb>) {
    |vs| > 0 && Val(vs) >= Weight(|vs| - 1) && Val(vs) > 0 &&
    var p, v := Val(before), Val(vs);
    p < v * 0x1_0000_0000 ==>
      if reading.Meant? || Estimate(p, v, |vs|, low, reading) == p / v then digit == p / v && Val(after) == p % v
      else digit == Estimate(p, v, |vs|, low, reading)
  }

  /**
   One pass of the main loop on the window of n + 1 limbs at i. A partial dividend below
   2^32 times the divisor is replaced by its remainder and the digit is its quotient, unless
   the borrow is unsigned and the estimate is not that quotient: then the estimate stands.
   */
  method DivideDigit(nu: array<Limb>, i: nat, nv: array<Limb>, reading: Reading) returns (digit: Limb)
    requires nu != nv && nv.Length > 0 && i + nv.Length < nu.Length
    requires nv[nv.Length - 1] >= 0x8000_0000
    modifies nu
    ensures forall k :: 0 <= k < i || i + nv.Length < k < nu.Length ==> nu[k] == old(nu[k])
    ensures DigitDone(old(nu[i..i + nv.Length + 1]), nv[..], LowWord(if i > 0 then old(nu[i - 1]) else 0, i, reading),
                      reading, digit, nu[i..i + nv.Length])
  {
    hide Val, Weight, Estimate;
    ghost var n, p, v := nv.Length, Val(nu[i..i + nv.Length + 1]), Val(nv[..]);
    WeightStep(n - 1);
    var qhat := EstimateAt(nu, i, nv, reading);
    ghost var q, r := QuotientAndRemainder(p, v);
    if reading.Meant? && p < v * 0x1_0000_0000 { MeantEstimate(p, v, n, reading); }
    digit := SubtractAndCorrect(nu, i, nv, qhat, reading, q, r);
  }

  /** In the meant reading the estimate is the digit or one more, whatever the divisor's length. */
  lemma {:induction false} MeantEstimate(p: nat, v: nat, n: nat, reading: Reading)
    requires n > 0 && v >= Weight(n - 1) && p < v * 0x1_0000_0000 && (n >= 2 || reading.Meant?)
    ensures forall low :: Estimate(p, v, n, low, reading) == p / v || Estimate(p, v, n, low, reading) == p / v + 1
  {
    if n >= 2 {
      WeightStep(n - 2);
      EstimateBounds(p, v, Weight(n - 2));
    } else {
      WeightStep(0);
      DivAtLeast(p, v, 0x1_0000_0000);
    }
  }

  // ---------------------------------------------------------------- the main loop

  /** The partial dividend of digit j: the remainder of the limbs above j, then limb j. */
  function Partial(u: nat, v: nat, j: nat): nat
    requires v > 0
  {
    WeightStep(j);
    WeightStep(j + 1);
    ((u / Weight(j + 1)) % v) * 0x1_0000_0000 + (u / Weight(j)) % 0x1_0000_0000
  }

  /** The limb that the estimate of digit j reads below the partial dividend's top two. */
  function LowLimb(u: nat, j: nat, reading: Reading): Limb {
    if j > 0 then
      WeightStep(j - 1);
      LowWord((u / Weight(j - 1)) % 0x1_0000_0000, j, reading)
    else LowWord(0, j, reading)
  }

  /** The estimate of digit j, made from the top limbs alone, is the true digit. */
  predicate DigitExact(u: nat, v: nat, n: nat, j: nat, reading: Reading)
    requires n > 0 && v >= Weight(n - 1) && v > 0
  {
    Estimate(Partial(u, v, j), v, n, LowLimb(u, j, reading), reading) == Partial(u, v, j) / v
  }

  /** Dividing by the weight of j + 1 is dividing by the weight of j and then by 2^32. */
  lemma {:induction false} NextLimb(u: nat, j: nat)
    ensures Weight(j) > 0 && Weight(j + 1) > 0
    ensures u / Weight(j) == (u / Weight(j + 1)) * 0x1_0000_0000 + (u / Weight(j)) % 0x1_0000_0000
  {
    WeightStep(j);
    WeightStep(j + 1);
    var w, a := Weight(j), u / Weight(j);
    assert u == a * w + u % w;
    assert a == (a / 0x1_0000_0000) * 0x1_0000_0000 + a % 0x1_0000_0000;
    NextLimbParts(u, w, a, a / 0x1_0000_0000, a % 0x1_0000_0000, u % w);
    DivUnique(u, 0x1_0000_0000 * w, a / 0x1_0000_0000, (a % 0x1_0000_0000) * w + u % w);
  }

  lemma {:induction false} NextLimbParts(u: int, w: int, a: int, h: int, d: int, r: int)
    requires w > 0 && u == a * w + r && a == h * 0x1_0000_0000 + d && 0 <= d < 0x1_0000_0000 && 0 <= r < w
    ensures u == h * (0x1_0000_0000 * w) + (d * w + r) && 0 <= d * w + r < 0x1_0000_0000 * w
  {
    MulAssoc(h, 0x1_0000_0000, w);
    assert (h * 0x1_0000_0000 + d) * w == (h * 0x1_0000_0000) * w + d * w;
    MulMono(d, 0x1_0000_0000 - 1, w);
    MulNonneg(d, w);
  }

  /** Schoolbook division by one more limb: digit and remainder come from the partial dividend. */
  lemma {:induction false} NextDigit(u: nat, v: nat, j: nat)
    requires v > 0
    ensures Weight(j) > 0 && Weight(j + 1) > 0
    ensures
      var p := Partial(u, v, j);
      p < v * 0x1_0000_0000 && p / v < 0x1_0000_0000
      && (u / Weight(j)) / v == ((u / Weight(j + 1)) / v) * 0x1_0000_0000 + p / v
      && (u / Weight(j)) % v == p % v
  {
    hide Weight;
    NextLimb(u, j);
    SplitQuotient(u / Weight(j), u / Weight(j + 1), (u / Weight(j)) % 0x1_0000_0000, v);
  }

  lemma {:induction false} SplitQuotient(a: nat, h: nat, d: Limb, v: nat)
    requires v > 0 && a == h * 0x1_0000_0000 + d
    ensures
      var p := (h % v) * 0x1_0000_0000 + d;
      p < v * 0x1_0000_0000 && p / v < 0x1_0000_0000
      && a / v == (h / v) * 0x1_0000_0000 + p / v && a % v == p % v
  {
    var q, r := h / v, h % v;
    var p := r * 0x1_0000_0000 + d;
    assert h == q * v + r;
    assert p < v * 0x1_0000_0000 by { MulMono(r, v - 1, 0x1_0000_0000); }
    assert a == (q * 0x1_0000_0000) * v + p by {
      MulDistribute(0x1_0000_0000, q * v, r);
      MulAssoc(q, v, 0x1_0000_0000);
      MulAssoc(q, 0x1_0000_0000, v);
    }
    var e, f := p / v, p % v;
    assert p == e * v + f;
    MulDistribute(v, q * 0x1_0000_0000, e);
    DivUnique(a, v, q * 0x1_0000_0000 + e, f);
    DivAtLeast(p, v, 0x1_0000_0000);
  }

  /** Limb j of a magnitude, taken out by division. */
  lemma {:induction false} LimbAt(s: seq<Limb>, j: nat)
    requires j < |s|
    ensures Weight(j) > 0 && (Val(s) / Weight(j)) % 0x1_0000_0000 == s[j]
  {
    HighLimbs(s, j);
    var t := s[j..];
    HighLimbs(t, 1);
    WeightStep(0);
    assert t[..1] == [s[j]];
    ValOne(s[j]);
  }

  lemma {:induction false} ValCons(x: Limb, s: seq<Limb>)
    ensures Val([x] + s) == x + 0x1_0000_0000 * Val(s)
  {
    ValAppend([x], s);
    ValOne(x);
    WeightStep(0);
  }

  /** Two numbers that differ above their last limb differ. */
  lemma {:induction false} DifferAbove(a: int, b: int, x: Limb, y: Limb)
    ensures x + 0x1_0000_0000 * a == y + 0x1_0000_0000 * b <==> a == b && x == y
  {}

  /** What the digits found so far and the window above i1 say when no digit has gone wrong. */
  ghost predicate OnTrack(u: nat, v: nat, i1: nat, window: seq<Limb>, digits: seq<Limb>)
    requires v > 0
  {
    WeightStep(i1);
    Val(window) == (u / Weight(i1)) % v && Val(digits) == (u / Weight(i1)) / v
  }

  /** The window one limb lower starts from the partial dividend. */
  lemma {:induction false} WindowBelow(s: seq<Limb>, x: Limb, window: seq<Limb>, v: nat, i: nat, digits: seq<Limb>)
    requires v > 0 && i < |s| && x == s[i]
    requires OnTrack(Val(s), v, i + 1, window, digits)
    ensures Val([x] + window) == Partial(Val(s), v, i)
  {
    ValCons(x, window);
    LimbAt(s, i);
  }

  /** The loop stays on track exactly when the new digit is the true one. */
  lemma {:induction false} StayOnTrack(u: nat, v: nat, i: nat, digit: Limb, digits: seq<Limb>, window: seq<Limb>)
    requires v > 0
    ensures Weight(i) > 0 && Weight(i + 1) > 0
    ensures Val([digit] + digits) == (u / Weight(i)) / v
       <==> Val(digits) == (u / Weight(i + 1)) / v && digit == Partial(u, v, i) / v
    ensures (Val(digits) == (u / Weight(i + 1)) / v && digit == Partial(u, v, i) / v
             && Val(window) == Partial(u, v, i) % v) ==> OnTrack(u, v, i, window, [digit] + digits)
  {
    NextDigit(u, v, i);
    ValCons(digit, digits);
    DifferAbove(Val(digits), (u / Weight(i + 1)) / v, digit, Partial(u, v, i) / v);
  }

  /** Every digit from i on has an exact estimate. */
  ghost predicate ExactFrom(u: nat, v: nat, n: nat, i: nat, m: nat, reading: Reading)
    requires n > 0 && v >= Weight(n - 1) && v > 0
  {
    forall j :: i <= j <= m ==> DigitExact(u, v, n, j, reading)
  }

  /** The state of the main loop on dividend s once the digits from i1 on are done. */
  ghost predicate LoopState(s: seq<Limb>, vs: seq<Limb>, i1: nat, m: nat, reading: Reading, window: seq<Limb>,
                            digits: seq<Limb>) {
    |vs| > 0 && Val(vs) >= Weight(|vs| - 1) && Val(vs) > 0 && Weight(i1) > 0 &&
    if reading.Meant? || ExactFrom(Val(s), Val(vs), |vs|, i1, m, reading)
    then OnTrack(Val(s), Val(vs), i1, window, digits)
    else Val(digits) != (Val(s) / Weight(i1)) / Val(vs)
  }

  lemma {:induction false} LoopStep(s: seq<Limb>, vs: seq<Limb>, i: nat, m: nat, reading: Reading,
                                    window: seq<Limb>, digits: seq<Limb>, digit: Limb, after: seq<Limb>)
    requires i <= m && i < |s| && LoopState(s, vs, i + 1, m, reading, window, digits)
    requires DigitDone([s[i]] + window, vs, LowWord(if i > 0 then s[i - 1] else 0, i, reading), reading, digit, after)
    ensures LoopState(s, vs, i, m, reading, after, [digit] + digits)
  {
    var u, v, n := Val(s), Val(vs), |vs|;
    WeightStep(i);
    ExactSplit(u, v, n, i, m, reading);
    StayOnTrack(u, v, i, digit, digits, after);
    if reading.Meant? || ExactFrom(u, v, n, i + 1, m, reading) {
      WindowBelow(s, s[i], window, v, i, digits);
      BelowWindow(s, i, reading);
      NextDigit(u, v, i);
    }
  }

  lemma {:induction false} ExactSplit(u: nat, v: nat, n: nat, i: nat, m: nat, reading: Reading)
    requires n > 0 && v >= Weight(n - 1) && v > 0 && i <= m
    ensures ExactFrom(u, v, n, i, m, reading)
       <==> ExactFrom(u, v, n, i + 1, m, reading) && DigitExact(u, v, n, i, reading)
  {}

  /** One digit of the quotient is found and stored. */
  method DivideAt(nu: array<Limb>, nv: array<Limb>, q: array<Limb>, i: nat, reading: Reading, ghost s: seq<Limb>)
    requires nu != nv && nu != q && nv != q && nv.Length > 0 && nv[nv.Length - 1] >= 0x8000_0000
    requires i < q.Length && i < |s| && i + 1 + nv.Length <= nu.Length && nu[..i + 1] == s[..i + 1]
    requires LoopState(s, nv[..], i + 1, q.Length - 1, reading, nu[i + 1..i + 1 + nv.Length], q[i + 1..])
    modifies nu, q
    ensures nu[..i] == s[..i]
    ensures LoopState(s, nv[..], i, q.Length - 1, reading, nu[i..i + nv.Length], q[i..])
  {
    hide Val, Weight, LoopState, DigitDone;
    ghost var n, window, digits := nv.Length, nu[i + 1..i + 1 + nv.Length], q[i + 1..];
    SameLimbs(nu[..], s, i, n);
    var digit := DivideDigit(nu, i, nv, reading);
    q[i] := digit;
    assert q[i..] == [digit] + digits;
    LoopStep(s, nv[..], i, q.Length - 1, reading, window, digits, digit, nu[i..i + n]);
  }

  /**
   The main loop over a dividend of m + n + 1 limbs whose upper n limbs are below the divisor.
   With the signed borrow it leaves quotient and remainder; as written it does so exactly when
   every digit's estimate is exact.
   */
  method DivideLoop(nu: array<Limb>, nv: array<Limb>, m: nat, reading: Reading) returns (q: array<Limb>)
    requires nu != nv && nv.Length > 0 && m + nv.Length < nu.Length && nv[nv.Length - 1] >= 0x8000_0000
    requires Val(nu[m + 1..m + nv.Length + 1]) < Val(nv[..])
    modifies nu
    ensures fresh(q) && q.Length == m + 1
    ensures LoopState(old(nu[..m + nv.Length + 1]), nv[..], 0, m, reading, nu[..nv.Length], q[..])
  {
    hide Val, Weight, LoopState;
    q := new Limb[m + 1](_ => 0);
    var n := nv.Length;
    ghost var s, vs := nu[..m + n + 1], nv[..];
    assert nu[m + 1..m + 1 + n] == s[m + 1..] && q[m + 1..] == [];
    StartLoop(s, vs, m, reading);
    var i1 := m + 1;
    while i1 > 0
      invariant 0 <= i1 <= m + 1
      invariant nu[..i1] == s[..i1] && nv[..] == vs
      invariant LoopState(s, vs, i1, m, reading, nu[i1..i1 + n], q[i1..])
    {
      DivideAt(nu, nv, q, i1 - 1, reading, s);
      i1 := i1 - 1;
    }
    assert q[0..] == q[..] && nu[0..n] == nu[..n];
  }

  /** The window at i starts with limb i of the untouched part. */
  lemma {:induction false} SameLimbs(a: seq<Limb>, s: seq<Limb>, i: nat, n: nat)
    requires i + 1 + n <= |a| && i < |s| && a[..i + 1] == s[..i + 1]
    ensures a[i] == s[i] && (i > 0 ==> a[i - 1] == s[i - 1])
    ensures a[i..i + n + 1] == [s[i]] + a[i + 1..i + 1 + n]
    ensures a[..i] == s[..i]
  {
    assert a[i] == a[..i + 1][i];
    if i > 0 { assert a[i - 1] == a[..i + 1][i - 1]; }
    assert a[..i] == a[..i + 1][..i] && s[..i] == s[..i + 1][..i];
  }

  lemma {:induction false} StartOnTrack(s: seq<Limb>, v: nat, i1: nat)
    requires i1 <= |s| && Val(s[i1..]) < v
    ensures OnTrack(Val(s), v, i1, s[i1..], [])
  {
    HighLimbs(s, i1);
    DivUnique(Val(s[i1..]), v, 0, Val(s[i1..]));
  }

  lemma {:induction false} StartLoop(s: seq<Limb>, vs: seq<Limb>, m: nat, reading: Reading)
    requires |vs| > 0 && vs[|vs| - 1] != 0 && m + 1 <= |s| && Val(s[m + 1..]) < Val(vs)
    ensures LoopState(s, vs, m + 1, m, reading, s[m + 1..], [])
  {
    NormalLower(vs);
    WeightStep(|vs| - 1);
    WeightStep(m + 1);
    StartOnTrack(s, Val(vs), m + 1);
  }

  /** The limb read below a window is a limb of the untouched part of the dividend. */
  lemma {:induction false} BelowWindow(s: seq<Limb>, i: nat, reading: Reading)
    requires i < |s|
    ensures LowWord(if i > 0 then s[i - 1] else 0, i, reading) == LowLimb(Val(s), i, reading)
  {
    if i > 0 { LimbAt(s, i - 1); }
  }

  // ---------------------------------------------------------------- normalising and the whole division

  lemma {:induction false} LimbBitLen(x: Limb)
    ensures BitLen(x) <= 32
  {
    TwoPowers();
    if x > 0 {
      BitLenBounds(x);
      if BitLen(x) > 32 { PowMonotone(2, 32, BitLen(x) - 1); }
    }
  }

  /** The number of bits that step D1 shifts by. */
  function Shift(v: seq<Limb>): (s: nat)
    requires |v| > 0
    ensures s <= 32
  {
    LimbBitLen(v[|v| - 1]);
    32 - BitLen(v[|v| - 1])
  }

  /** The divisor shifted until its top bit is set. */
  function Normalised(v: seq<Limb>): (r: nat)
    requires |v| > 0 && Normal(v)
    ensures r >= Weight(|v| - 1) && r > 0
  {
    NormalLower(v);
    WeightStep(|v| - 1);
    PowPositive(2, Shift(v));
    MulMono(1, Pow(2, Shift(v)), Val(v));
    Val(v) * Pow(2, Shift(v))
  }

  /** As written, the quotient of u by v comes out right exactly when this holds. */
  ghost predicate EstimatesExact(u: seq<Limb>, v: seq<Limb>, reading: Reading)
    requires |u| >= |v| > 0 && Normal(v)
  {
    PowPositive(2, Shift(v));
    MulNonneg(Val(u), Pow(2, Shift(v)));
    ExactFrom(Val(u) * Pow(2, Shift(v)), Normalised(v), |v|, 0, |u| - |v|, reading)
  }

  /** A limb that a left shift does not push out of its top. */
  lemma {:induction false} NothingLeaves(x: Limb, n: nat)
    requires n < 32 && x * Pow(2, n) < 0x1_0000_0000
    ensures Pow(2, 32 - n) > 0 && x / Pow(2, 32 - n) == 0
  {
    hide Pow;
    ShiftFactors(n);
    var p, p' := Pow(2, n), Pow(2, 32 - n);
    if x >= p' { MulMono(p', x, p); }
    DivUnique(x, p', 0, x);
  }

  /** Step D1 for the divisor. */
  method NormaliseDivisor(v: seq<Limb>) returns (nv: array<Limb>, shift: nat)
    requires |v| > 0 && Normal(v)
    ensures fresh(nv) && nv.Length == |v| && shift < 32 && shift == Shift(v)
    ensures Val(nv[..]) == Normalised(v) && nv[nv.Length - 1] >= 0x8000_0000
  {
    var n := |v|;
    shift := NumberOfLeadingZerosU32(v[n - 1]);
    assert BitLen(v[n - 1]) == 32 - shift by {
      TwoPowers();
      LeadingZerosBitLen(v[n - 1], shift, 32);
    }
    nv := new Limb[n](_ => 0);
    ShiftLeft(v, nv, shift);
    assert nv[..n] == nv[..];
    NormalisedIs(v, nv[..], shift);
  }

  lemma {:induction false} NormalisedIs(v: seq<Limb>, nv: seq<Limb>, n: nat)
    requires |v| == |nv| > 0 && Normal(v) && n < 32 && n == Shift(v) && Pow(2, 32 - n) > 0
    requires 0x8000_0000 <= v[|v| - 1] * Pow(2, n) < 0x1_0000_0000
    requires Val(nv) == Val(v) * Pow(2, n) - Weight(|v|) * (v[|v| - 1] / Pow(2, 32 - n))
    ensures Val(nv) == Normalised(v) && nv[|nv| - 1] >= 0x8000_0000
  {
    NothingLeaves(v[|v| - 1], n);
    PowPositive(2, n);
    assert Weight(|v|) * 0 == 0;
    TopLimbLarge(v, nv, Pow(2, n));
  }

  /** The shifted divisor has its top bit set. */
  lemma {:induction false} TopLimbLarge(v: seq<Limb>, nv: seq<Limb>, p: int)
    requires |v| == |nv| > 0 && p > 0 && Val(nv) == Val(v) * p && 0x8000_0000 <= v[|v| - 1] * p
    ensures nv[|nv| - 1] >= 0x8000_0000
  {
    var n := |v| - 1;
    ValTop(v);
    ValTop(nv);
    ValBound(nv[..n]);
    WeightStep(n);
    TopDigitLarge(Val(v), Val(v[..n]), v[n], Weight(n), p, Val(nv[..n]), nv[n], 0x8000_0000);
  }

  lemma {:induction false} TopDigitLarge(a: int, low: int, x: int, w: int, p: int, low': int, t: int, h: int)
    requires w > 0 && p > 0 && 0 <= low && a == low + x * w && a * p == low' + t * w && low' < w && h <= x * p
    ensures h <= t
  {
    if t < h {
      MulMono(x * w, a, p);
      MulAssoc(x, w, p);
      MulAssoc(x, p, w);
      MulMono(h, x * p, w);
      MulMono(t + 1, h, w);
    }
  }

  /** Step D1 for the dividend: one limb more, or two when bits leave the top limb. */
  method NormaliseDividend(u: seq<Limb>, shift: nat) returns (nu: array<Limb>)
    requires |u| > 0 && Normal(u) && shift < 32
    ensures fresh(nu) && nu.Length > |u| && nu[|u|] < 0x8000_0000
    ensures Val(nu[..|u| + 1]) == Val(u) * Pow(2, shift)
  {
    var ulen := |u|;
    var zeros := NumberOfLeadingZerosU32(u[ulen - 1]);
    ShiftFactors(shift);
    if zeros >= shift {
      nu := new Limb[ulen + 1](_ => 0);
      ShiftLeft(u, nu, shift);
      assert u[ulen - 1] / Pow(2, 32 - shift) == 0 by {
        PowMonotone(2, shift, zeros);
        MulMono(Pow(2, shift), Pow(2, zeros), u[ulen - 1]);
        NothingLeaves(u[ulen - 1], shift);
      }
    } else {
      nu := new Limb[ulen + 2](_ => 0);
      ShiftLeft(u, nu, shift);
      LeavingBits(u[ulen - 1], shift);
      ghost var low := nu[..ulen];
      nu[ulen] := u[ulen - 1] / Pow(2, 32 - shift);
      assert nu[..ulen] == low;
    }
    assert nu[..ulen + 1] == nu[..ulen] + [nu[ulen]];
    ValSnoc(nu[..ulen], nu[ulen]);
    Rejoin(Val(nu[..ulen]), Val(u) * Pow(2, shift), Weight(ulen), nu[ulen]);
  }

  lemma {:induction false} Rejoin(low: int, whole: int, w: int, top: int)
    requires low == whole - w * top
    ensures low + top * w == whole
  {}

  /** The bits that leave the top limb fill less than half of the next one. */
  lemma {:induction false} LeavingBits(x: Limb, n: nat)
    requires n < 32
    ensures Pow(2, 32 - n) > 0 && 0 <= x / Pow(2, 32 - n) && 2 * (x / Pow(2, 32 - n)) < 0x1_0000_0000
  {
    ShiftFactors(n);
    ShlParts(x, Pow(2, n), Pow(2, 32 - n));
    TwoPowers();
    PowMonotone(2, n, 31);
  }

  /** The upper limbs of the shifted dividend are below the shifted divisor. */
  lemma {:induction false} UpperBelow(nu: seq<Limb>, v: seq<Limb>)
    requires |nu| == |v| > 0 && nu[|nu| - 1] < 0x8000_0000 && v[|v| - 1] >= 0x8000_0000
    ensures Val(nu) < Val(v)
  {
    var n := |v| - 1;
    assert nu[n + 1..] == v[n + 1..];
    ValLess(nu, v, n);
  }

  /** Shifting both sides changes the remainder only by the shift. */
  lemma {:induction false} ScaledDivision(u: nat, v: nat, p: int)
    requires v > 0 && p > 0
    ensures v * p > 0 && (u * p) / (v * p) == u / v && (u * p) % (v * p) == (u % v) * p
  {
    var q, r := u / v, u % v;
    assert u == q * v + r;
    assert u * p == q * (v * p) + r * p by {
      assert (q * v + r) * p == (q * v) * p + r * p;
      MulAssoc(q, v, p);
    }
    MulStrict(r, v, p);
    MulNonneg(r, p);
    DivUnique(u * p, v * p, q, r * p);
  }

  /** The quotient limbs, not yet trimmed, and the limbs of the remainder. */
  method DivideMagnitudes(u: seq<Limb>, v: seq<Limb>, reading: Reading) returns (q: seq<Limb>, r: seq<Limb>)
    requires |u| >= |v| > 0 && Normal(u) && Normal(v)
    ensures |q| == |u| - |v| + 1 && |r| == |v| && Val(v) > 0
    ensures reading.Meant? ==> Val(q) == Val(u) / Val(v) && Val(r) == Val(u) % Val(v)
    ensures reading.AsWritten? ==> (Val(q) == Val(u) / Val(v) <==> EstimatesExact(u, v, reading))
    ensures reading.AsWritten? && EstimatesExact(u, v, reading) ==> Val(r) == Val(u) % Val(v)
  {
    var ulen, vlen := |u|, |v|;
    var nv, shift := NormaliseDivisor(v);
    var nu := NormaliseDividend(u, shift);
    ghost var p := Pow(2, shift);
    NormalZero(v);
    PowPositive(2, shift);
    ScaledDivision(Val(u), Val(v), p);
    var m := ulen - vlen;
    UpperBelow(nu[m + 1..m + vlen + 1], nv[..]);
    assert m + vlen + 1 == ulen + 1;
    var qs := DivideLoop(nu, nv, m, reading);
    WeightStep(0);
    var rs := new Limb[vlen](_ => 0);
    ShiftRight(nu[..], vlen, rs, shift);
    assert nu[..][..vlen] == nu[..vlen] && rs[..vlen] == rs[..];
    q, r := qs[..], rs[..];
    if reading.Meant? || EstimatesExact(u, v, reading) {
      UnshiftRemainder(Val(r), p, nu[0] % p, Val(u) % Val(v));
    }
  }

  /** A remainder that is a multiple of the shift loses nothing when it is shifted back. */
  lemma {:induction false} UnshiftRemainder(r: nat, p: int, low: int, x: nat)
    requires p > 0 && r * p + low == x * p && 0 <= low < p
    ensures r == x
  {
    if r < x { MulMono(r + 1, x, p); } else if r > x { MulMono(x + 1, r, p); }
  }

  // ---------------------------------------------------------------- where the text as written is right

  /** The shifted divisor is nothing but its top two limbs. */
  predicate LowLimbsZero(v: seq<Limb>)
    requires |v| >= 2 && Normal(v)
  {
    WeightStep(|v| - 2);
    Normalised(v) % Weight(|v| - 2) == 0
  }

  /** A divisor that is only its top two limbs makes every estimate exact. */
  lemma {:induction false} TopTwoExact(p: nat, v: nat, n: nat, low: Limb, reading: Reading)
    requires n >= 2 && v >= Weight(n - 1) && p < v * 0x1_0000_0000 && Weight(n - 2) > 0 && v % Weight(n - 2) == 0
    ensures Estimate(p, v, n, low, reading) == p / v
  {
    var w := Weight(n - 2);
    WeightStep(n - 2);
    EstimateBounds(p, v, w);
    var v2, e, q := v / w, Estimate(p, v, n, low, reading), p / v;
    assert v == v2 * w;
    DivAtLeast(p / w, v2, e);
    DivAtLeast(p, w, e * v2);
    MulAssoc(e, v2, w);
    DivAtLeast(p, v, e);
  }

  /** As written, division by such a divisor is right for every dividend. */
  lemma {:induction false} RightForEveryDividend(u: seq<Limb>, v: seq<Limb>, reading: Reading)
    requires |u| >= |v| >= 2 && Normal(v) && LowLimbsZero(v)
    ensures EstimatesExact(u, v, reading)
  {
    PowPositive(2, Shift(v));
    MulNonneg(Val(u), Pow(2, Shift(v)));
    var x, y := Val(u) * Pow(2, Shift(v)), Normalised(v);
    WeightStep(|v| - 2);
    forall j | 0 <= j <= |u| - |v| ensures DigitExact(x, y, |v|, j, reading) {
      NextDigit(x, y, j);
      TopTwoExact(Partial(x, y, j), y, |v|, LowLimb(x, j, reading), reading);
    }
  }

  /** As written, division by any other divisor v is wrong for the dividend 2 v - 1. */
  lemma {:induction false} WrongForSomeDividend(u: seq<Limb>, v: seq<Limb>, reading: Reading)
    requires |u| >= |v| >= 2 && Normal(v) && !LowLimbsZero(v)
    requires Val(u) == 2 * Val(v) - 1
    ensures !EstimatesExact(u, v, reading)
  {
    hide Val, Weight, Pow;
    var s, n := Shift(v), |v|;
    var p, w, y := Pow(2, s), Weight(n - 2), Normalised(v);
    PowPositive(2, s);
    MulNonneg(Val(u), p);
    WeightStep(n - 2);
    var x := Val(u) * p;
    assert x == 2 * y - p by {
      assert (2 * Val(v) - 1) * p == 2 * (Val(v) * p) - p;
    }
    assert p <= y by { NormalZero(v); MulMono(1, Val(v), p); }
    assert p <= y % w by { ShiftDividesCut(v, s, w); }
    LastPartial(x, y);
    Overshoots(x, y, w, p);
    assert !DigitExact(x, y, n, 0, reading);
  }

  /** What the shift leaves below the top two limbs is a multiple of the shift. */
  lemma {:induction false} ShiftDividesCut(v: seq<Limb>, s: nat, w: int)
    requires |v| >= 2 && Normal(v) && s == Shift(v) && w == Weight(|v| - 2) && w > 0
    requires Normalised(v) % w != 0
    ensures Pow(2, s) <= Normalised(v) % w
  {
    hide Val;
    var n, p, y := |v|, Pow(2, s), Normalised(v);
    PowPositive(2, s);
    TwoPowers();
    PowMul(2, 32, n - 2);
    assert w == Pow(2, 32 * (n - 2));
    if n > 2 {
      PowAdd(2, s, 32 * (n - 2) - s);
      var k := Pow(2, 32 * (n - 2) - s);
      var h, f := y / w, y % w;
      assert y == h * w + f;
      assert f == p * (Val(v) - h * k) by {
        MulAssoc(h, k, p);
        assert h * w == (h * k) * p;
        assert (Val(v) - h * k) * p == Val(v) * p - (h * k) * p;
      }
      if Val(v) - h * k <= 0 { MulMono(Val(v) - h * k, 0, p); }
      MulMono(1, Val(v) - h * k, p);
    }
  }

  /** A dividend below 2^32 times the divisor is its own last partial dividend. */
  lemma {:induction false} LastPartial(x: nat, y: nat)
    requires y > 0 && x < y * 0x1_0000_0000
    ensures Partial(x, y, 0) == x
  {
    WeightStep(0);
    var h := x / 0x1_0000_0000;
    assert Weight(1) == 0x1_0000_0000 && x == h * 0x1_0000_0000 + x % 0x1_0000_0000;
    if h >= y { MulMono(y, h, 0x1_0000_0000); }
    DivUnique(h, y, 0, h);
  }

  lemma {:induction false} Overshoots(x: nat, y: nat, w: int, p: int)
    requires w > 0 && 0 < p <= y % w && x == 2 * y - p && p <= y && y / w > 0
    ensures (x / w) / (y / w) >= 2 && x / y == 1
  {
    var h, f := y / w, y % w;
    assert y == h * w + f;
    assert (2 * h) * w <= x by { assert (2 * h) * w == 2 * (h * w); }
    DivAtLeast(x, w, 2 * h);
    DivAtLeast(x / w, h, 2);
    DivUnique(x, y, 1, y - p);
  }

  /** As written, a one-limb divisor is right for every dividend when the word before it is zero. */
  lemma {:induction false} OneLimbRight(u: seq<Limb>, v: seq<Limb>, reading: Reading)
    requires |u| >= |v| == 1 && Normal(v) && reading.AsWritten? && reading.beforeDivisor == 0
    ensures EstimatesExact(u, v, reading)
  {
    PowPositive(2, Shift(v));
    MulNonneg(Val(u), Pow(2, Shift(v)));
    var x, y := Val(u) * Pow(2, Shift(v)), Normalised(v);
    hide Val, Pow, Partial, LowLimb;
    forall j | 0 <= j <= |u| - |v| ensures DigitExact(x, y, |v|, j, reading) {
      NextDigit(x, y, j);
      LowWordDropped(Partial(x, y, j), y, LowLimb(x, j, reading));
    }
  }

  /** With any other word in front of it, v times 2^64 is divided wrongly. */
  lemma {:induction false} OneLimbWrong(v: Limb, reading: Reading)
    requires v != 0 && reading.AsWritten? && reading.beforeDivisor != 0
    ensures !EstimatesExact([0, 0, v], [v], reading)
  {
    var u, d := [0, 0, v], [v];
    var p, y := Pow(2, Shift(d)), Normalised(d);
    PowPositive(2, Shift(d));
    ValOne(v);
    ValThree(0, 0, v);
    assert Val(u) == Val(d) * 0x1_0000_0000_0000_0000;
    MulNonneg(Val(u), p);
    MulAssoc(Val(d), 0x1_0000_0000_0000_0000, p);
    MulAssoc(Val(d), p, 0x1_0000_0000_0000_0000);
    assert y < 0x1_0000_0000 by { NormalisedFits(v); }
    TopPartial(y, reading);
    assert !DigitExact(Val(u) * p, y, 1, 2, reading);
  }

  lemma {:induction false} NormalisedFits(v: Limb)
    requires v != 0
    ensures Normalised([v]) < 0x1_0000_0000
  {
    ValOne(v);
    var b := BitLen(v);
    BitLenBounds(v);
    LimbBitLen(v);
    hide BitLen;
    ShiftFactors(b);
    MulStrict(v, Pow(2, b), Pow(2, 32 - b));
  }

  lemma {:induction false} TopPartial(y: nat, reading: Reading)
    requires 0 < y < 0x1_0000_0000 && reading.AsWritten? && reading.beforeDivisor != 0
    ensures y >= Weight(0) && !DigitExact(y * 0x1_0000_0000_0000_0000, y, 1, 2, reading)
  {
    var x := y * 0x1_0000_0000_0000_0000;
    WeightStep(0);
    WeightStep(1);
    WeightStep(2);
    assert x / Weight(3) == 0 && x / Weight(2) == y && (x / Weight(1)) % 0x1_0000_0000 == 0;
    DivUnique(0, y, 0, 0);
    assert Partial(x, y, 2) == y;
    DivUnique(y, y, 1, 0);
    DivUnique(y * 0x1_0000_0000 + 0, y * 0x1_0000_0000 + reading.beforeDivisor, 0, y * 0x1_0000_0000);
  }
}
