/**
 How many decimal digits a number has, estimated from its bit length.

 The estimate multiplies the bit length by a fixed-point approximation of log10(2). It is exact
 as far as that approximation brackets the logarithm, and the brackets here are inequalities
 between powers of two and of ten: 10^646456993 <= 2^(2^31) and 2^(2^33) <= 10^2585827973.
 They are found by repeated squaring of 2^32 with mantissas of sixteen digits.
 */
module Precision {
  import opened Words
  import opened Bits

  /** The number of decimal digits of x; zero has one. */
  function DigitCount(x: nat): nat {
    if x < 10 then 1 else 1 + DigitCount(x / 10)
  }

  lemma {:induction false} DigitCountBounds(x: nat)
    ensures DigitCount(x) > 0 && x < Pow(10, DigitCount(x))
    ensures x > 0 ==> Pow(10, DigitCount(x) - 1) <= x
  {
    if x < 10 {
    } else {
      DigitCountBounds(x / 10);
    }
  }

  lemma {:induction false} DigitCountUnique(x: nat, d: nat)
    requires d > 0 && x > 0 && Pow(10, d - 1) <= x < Pow(10, d)
    ensures DigitCount(x) == d
  {
    hide Pow, DigitCount;
    DigitCountBounds(x);
    if d < DigitCount(x) { PowMonotone(10, d, DigitCount(x) - 1); }
    if DigitCount(x) < d { PowMonotone(10, DigitCount(x), d - 1); }
  }

  // ---------------------------------------------------------------- from brackets to digits

  /** A fraction c / s not above log10(2) does not estimate too many digits. */
  lemma {:induction false} NotTooMany(b: nat, c: nat, s: nat, r: nat)
    requires s > 0 && b > 0 && r > 0 && r * s <= (b + 1) * c && Pow(10, c) <= Pow(2, s)
    ensures Pow(10, r - 1) <= Pow(2, b - 1)
  {
    hide Pow;
    var x, y := Pow(10, r - 1), Pow(2, b - 1);
    PowPositive(10, r - 1);
    PowPositive(2, b - 1);
    var ten, four := Pow(10, s), Pow(4, s);
    assert Pow(x, s) * ten <= Pow(y, s) * four by {
      TensBelow(b, c, s, r);
      TwosSplit(b, s);
    }
    PowBaseMonotone(4, 10, s);
    PowPositive(10, s);
    PowPositive(y, s);
    MulMono(four, ten, Pow(y, s));
    if Pow(x, s) > Pow(y, s) { MulStrict(Pow(y, s), Pow(x, s), ten); }
    RootMonotone(x, y, s);
  }

  lemma {:induction false} TensBelow(b: nat, c: nat, s: nat, r: nat)
    requires s > 0 && r > 0 && r * s <= (b + 1) * c && Pow(10, c) <= Pow(2, s)
    ensures Pow(Pow(10, r - 1), s) * Pow(10, s) <= Pow(Pow(2, s), b + 1)
  {
    hide Pow;
    PowMul(10, r - 1, s);
    PowAdd(10, (r - 1) * s, s);
    MulDistribute(s, r - 1, 1);
    PowMonotone(10, r * s, (b + 1) * c);
    PowMul(10, c, b + 1);
    PowPositive(10, c);
    PowBaseMonotone(Pow(10, c), Pow(2, s), b + 1);
  }

  lemma {:induction false} TwosSplit(b: nat, s: nat)
    requires b > 0
    ensures Pow(Pow(2, s), b + 1) == Pow(Pow(2, b - 1), s) * Pow(4, s)
  {
    hide Pow;
    PowMul(2, s, b + 1);
    PowMul(2, b - 1, s);
    PowMul(2, 2, s);
    SmallTwoPowers();
    PowAdd(2, (b - 1) * s, 2 * s);
    MulDistribute(s, b - 1, 2);
  }

  /** A fraction c / s close enough to log10(2) from below does not estimate too few digits. */
  lemma {:induction false} NotTooFew(b: nat, c: nat, s: nat, n: nat, p: nat, r: nat)
    requires s > 0 && n > 0 && (b + 1) * c < (r + 1) * s && Pow(2, n) <= Pow(10, p)
    requires b * p * s <= (b + 1) * c * n
    ensures Pow(2, b) <= Pow(10, r + 1)
  {
    hide Pow;
    assert p * b <= (r + 1) * n by { CancelFactor(b, c, s, n, p, r); }
    PowPositive(2, b);
    PowPositive(10, r + 1);
    PowMul(2, b, n);
    PowMul(2, n, b);
    assert b * n == n * b;
    PowPositive(2, n);
    PowBaseMonotone(Pow(2, n), Pow(10, p), b);
    PowMul(10, p, b);
    PowMonotone(10, p * b, (r + 1) * n);
    PowMul(10, r + 1, n);
    RootMonotone(Pow(2, b), Pow(10, r + 1), n);
  }

  lemma {:induction false} CancelFactor(b: nat, c: nat, s: nat, n: nat, p: nat, r: nat)
    requires s > 0 && (b + 1) * c < (r + 1) * s && b * p * s <= (b + 1) * c * n
    ensures p * b <= (r + 1) * n
  {
    MulMono((b + 1) * c, (r + 1) * s, n);
    MulAssoc(r + 1, s, n);
    MulAssoc(r + 1, n, s);
    if p * b > (r + 1) * n { MulStrict((r + 1) * n, p * b, s); }
  }

  /** With both brackets, a digit count is the estimate or one more, as one comparison tells. */
  lemma {:induction false} EstimatedDigits(x: nat, c: nat, s: nat, n: nat, p: nat, r: nat)
    requires x > 0 && s > 0 && n > 0 && r == (BitLen(x) + 1) * c / s
    requires Pow(10, c) <= Pow(2, s) && Pow(2, n) <= Pow(10, p)
    requires BitLen(x) * p * s <= (BitLen(x) + 1) * c * n
    ensures DigitCount(x) == if x < Pow(10, r) then r else r + 1
  {
    hide Pow, BitLen, DigitCount;
    var b := BitLen(x);
    BitLenBounds(x);
    var t := (b + 1) * c;
    assert r * s <= t < (r + 1) * s by { FloorBounds(t, s); }
    NotTooFew(b, c, s, n, p, r);
    if x < Pow(10, r) {
      PowZero();
      if r > 0 { NotTooMany(b, c, s, r); }
      DigitCountUnique(x, r);
    } else {
      DigitCountUnique(x, r + 1);
    }
  }

  lemma {:induction false} PowZero()
    ensures Pow(10, 0) == 1
  {}

  lemma {:induction false} FloorBounds(t: nat, s: nat)
    requires s > 0
    ensures (t / s) * s <= t < (t / s + 1) * s
  {
    assert t == (t / s) * s + t % s;
  }

  // ---------------------------------------------------------------- the brackets

  /** 2^n <= m * 10^e, squared and rounded up to a mantissa m2. */
  lemma {:induction false} SquareAbove(n: nat, e: nat, m: nat, d: nat, m2: nat) returns (n2: nat, e2: nat)
    requires d < 20 && Pow(2, n) <= m * Pow(10, e) && m * m <= m2 * TenPowerU64(d)
    ensures n2 == 2 * n && e2 == 2 * e + d && Pow(2, n2) <= m2 * Pow(10, e2)
  {
    hide Pow, TenPowerU64;
    n2, e2 := 2 * n, 2 * e + d;
    SquareParts(n, e, d);
    var a, t := Pow(2, n), Pow(10, e);
    PowPositive(2, n);
    PowPositive(10, e);
    MulMono(a, m * t, a);
    MulMono(a, m * t, m * t);
    SquareProduct(m, t);
    MulNonneg(t, t);
    MulMono(m * m, m2 * Pow(10, d), t * t);
    MulAssoc(m2, Pow(10, d), t * t);
  }

  /** m * 10^e <= 2^n, squared and rounded down to a mantissa m2. */
  lemma {:induction false} SquareBelow(n: nat, e: nat, m: nat, d: nat, m2: nat) returns (n2: nat, e2: nat)
    requires d < 20 && m * Pow(10, e) <= Pow(2, n) && m2 * TenPowerU64(d) <= m * m
    ensures n2 == 2 * n && e2 == 2 * e + d && m2 * Pow(10, e2) <= Pow(2, n2)
  {
    hide Pow, TenPowerU64;
    n2, e2 := 2 * n, 2 * e + d;
    SquareParts(n, e, d);
    var a, t := Pow(2, n), Pow(10, e);
    PowPositive(2, n);
    PowPositive(10, e);
    MulNonneg(m, t);
    MulMono(m * t, a, a);
    MulMono(m * t, a, m * t);
    SquareProduct(m, t);
    MulNonneg(t, t);
    MulMono(m2 * Pow(10, d), m * m, t * t);
    MulAssoc(m2, Pow(10, d), t * t);
  }

  lemma {:induction false} SquareParts(n: nat, e: nat, d: nat)
    requires d < 20
    ensures Pow(2, 2 * n) == Pow(2, n) * Pow(2, n) && TenPowerU64(d) == Pow(10, d)
    ensures Pow(10, 2 * e + d) == Pow(10, d) * (Pow(10, e) * Pow(10, e))
  {
    PowAdd(2, n, n);
    PowAdd(10, e, e);
    PowAdd(10, d, 2 * e);
    TenPowerTable(d);
  }

  lemma {:induction false} SquareProduct(m: int, t: int)
    ensures (m * t) * (m * t) == (m * m) * (t * t)
  {
    MulAssoc(m, t, m * t);
    MulAssoc(t, m, t);
    MulAssoc(m, m, t * t);
    MulAssoc(m, t, t);
  }

  /** A mantissa of sixteen digits is at least 10^15 and at most 10^16. */
  lemma {:induction false} MantissaPower(m: nat, e: nat)
    ensures m >= 1000000000000000 ==> Pow(10, e + 15) <= m * Pow(10, e)
    ensures m <= 10000000000000000 ==> m * Pow(10, e) <= Pow(10, e + 16)
  {
    hide Pow;
    PowAdd(10, e, 15);
    PowAdd(10, e, 16);
    TenPowerTable(15);
    TenPowerTable(16);
    PowPositive(10, e);
    if m >= 1000000000000000 { MulMono(1000000000000000, m, Pow(10, e)); }
    if m <= 10000000000000000 { MulMono(m, 10000000000000000, Pow(10, e)); }
  }

  /** 10^1233 <= 2^4096, and the lower bound it comes from. */
  lemma {:induction false} LowerStart() returns (n: nat, e: nat)
    ensures n == 4096 && e + 15 == 1233 && Pow(10, e + 15) <= Pow(2, n)
    ensures 1044388881413133 * Pow(10, e) <= Pow(2, n)
  {
    TwoPowers();
    hide Pow;
    n, e := 32, 0;
    PowZero();
    n, e := SquareBelow(n, e, 4294967296, 4, 1844674407370955);
    n, e := SquareBelow(n, e, 1844674407370955, 15, 3402823669209384);
    n, e := SquareBelow(n, e, 3402823669209384, 16, 1157920892373161);
    n, e := SquareBelow(n, e, 1157920892373161, 15, 1340780792994257);
    n, e := SquareBelow(n, e, 1340780792994257, 15, 1797693134862308);
    n, e := SquareBelow(n, e, 1797693134862308, 15, 3231700607131072);
    n, e := SquareBelow(n, e, 3231700607131072, 16, 1044388881413133);
    MantissaPower(1044388881413133, e);
  }

  /** 10^646456993 <= 2^(2^31): the fixed-point constant is below log10(2). */
  lemma {:induction false} LowerBracket() returns (n: nat, c: nat)
    ensures n == 0x8000_0000 && c == 646456993 && Pow(10, c) <= Pow(2, n)
  {
    hide Pow;
    var e;
    n, e := LowerStart();
    n, e := SquareBelow(n, e, 1044388881413133, 15, 1090748135619375);
    n, e := SquareBelow(n, e, 1090748135619375, 15, 1189731495357142);
    n, e := SquareBelow(n, e, 1189731495357142, 15, 1415461031044741);
    n, e := SquareBelow(n, e, 1415461031044741, 15, 2003529930406241);
    n, e := SquareBelow(n, e, 2003529930406241, 15, 4014132182033636);
    n, e := SquareBelow(n, e, 4014132182033636, 16, 1611325717483811);
    n, e := SquareBelow(n, e, 1611325717483811, 15, 2596370567824718);
    n, e := SquareBelow(n, e, 2596370567824718, 15, 6741140125466448);
    n, e := SquareBelow(n, e, 6741140125466448, 16, 4544297019117379);
    n, e := SquareBelow(n, e, 4544297019117379, 16, 2065063539795909);
    n, e := SquareBelow(n, e, 2065063539795909, 15, 4264487423394409);
    n, e := SquareBelow(n, e, 4264487423394409, 16, 1818585298428908);
    n, e := SquareBelow(n, e, 1818585298428908, 15, 3307252487661760);
    n, e := SquareBelow(n, e, 3307252487661760, 16, 1093791901714489);
    n, e := SquareBelow(n, e, 1093791901714489, 15, 1196380724256198);
    n, e := SquareBelow(n, e, 1196380724256198, 15, 1431326837371784);
    n, e := SquareBelow(n, e, 1431326837371784, 15, 2048696515380713);
    n, e := SquareBelow(n, e, 2048696515380713, 15, 4197157412133076);
    n, e := SquareBelow(n, e, 4197157412133076, 16, 1761613034222361);
    MantissaPower(1761613034222361, e);
    c := e + 15;
  }

  /** 2^(2^33) <= 10^2585827973: it is less than a quarter of 2^-31 below. */
  lemma {:induction false} UpperBracket() returns (n: nat, p: nat)
    ensures n == 0x2_0000_0000 && p == 2585827973 && Pow(2, n) <= Pow(10, p)
  {
    TwoPowers();
    hide Pow;
    var e;
    n, e := 32, 0;
    PowZero();
    n, e := SquareAbove(n, e, 4294967296, 4, 1844674407370956);
    n, e := SquareAbove(n, e, 1844674407370956, 15, 3402823669209388);
    n, e := SquareAbove(n, e, 3402823669209388, 16, 1157920892373165);
    n, e := SquareAbove(n, e, 1157920892373165, 15, 1340780792994267);
    n, e := SquareAbove(n, e, 1340780792994267, 15, 1797693134862336);
    n, e := SquareAbove(n, e, 1797693134862336, 15, 3231700607131173);
    n, e := SquareAbove(n, e, 3231700607131173, 16, 1044388881413200);
    n, e := SquareAbove(n, e, 1044388881413200, 15, 1090748135619516);
    n, e := SquareAbove(n, e, 1090748135619516, 15, 1189731495357451);
    n, e := SquareAbove(n, e, 1189731495357451, 15, 1415461031045477);
    n, e := SquareAbove(n, e, 1415461031045477, 15, 2003529930408325);
    n, e := SquareAbove(n, e, 2003529930408325, 15, 4014132182041988);
    n, e := SquareAbove(n, e, 4014132182041988, 16, 1611325717490518);
    n, e := SquareAbove(n, e, 1611325717490518, 15, 2596370567846333);
    n, e := SquareAbove(n, e, 2596370567846333, 15, 6741140125578690);
    n, e := SquareAbove(n, e, 6741140125578690, 16, 4544297019268708);
    n, e := SquareAbove(n, e, 4544297019268708, 16, 2065063539933447);
    n, e := SquareAbove(n, e, 2065063539933447, 15, 4264487423962460);
    n, e := SquareAbove(n, e, 4264487423962460, 16, 1818585298913398);
    n, e := SquareAbove(n, e, 1818585298913398, 15, 3307252489423934);
    n, e := SquareAbove(n, e, 3307252489423934, 16, 1093791902880081);
    n, e := SquareAbove(n, e, 1093791902880081, 15, 1196380726806029);
    n, e := SquareAbove(n, e, 1196380726806029, 15, 1431326843472923);
    n, e := SquareAbove(n, e, 1431326843472923, 15, 2048696532846162);
    n, e := SquareAbove(n, e, 2048696532846162, 15, 4197157483695886);
    n, e := SquareAbove(n, e, 4197157483695886, 16, 1761613094294439);
    n, e := SquareAbove(n, e, 1761613094294439, 15, 3103280693989629);
    n, e := SquareAbove(n, e, 3103280693989629, 15, 9630351065688754);
    MantissaPower(9630351065688754, e);
    p := e + 16;
  }

  // ---------------------------------------------------------------- the two estimates

  /** The estimate that `GetPrecision` makes from a bit length. */
  function PrecisionEstimate(bits: nat): nat {
    Wrap32(Wrap64((bits + 1) * 646456993) / 0x8000_0000)
  }

  /** The estimate is right for every number of fewer than 2^31 bits. */
  lemma {:induction false} PrecisionExact(x: nat)
    requires x > 0 && BitLen(x) < 0x8000_0000
    ensures var r := PrecisionEstimate(BitLen(x)); DigitCount(x) == if x < Pow(10, r) then r else r + 1
  {
    hide Pow, BitLen, DigitCount;
    var s, c := LowerBracket();
    var n, p := UpperBracket();
    EstimatedDigits(x, c, s, n, p, PrecisionEstimate(BitLen(x)));
  }

  lemma {:induction false} NinetyThreeBits() returns (n: nat, p: nat)
    ensures n == 93 && p == 28 && Pow(2, n) <= Pow(10, p)
  {
    n, p := 93, 28;
    TwoPowers();
    PowAdd(2, 32, 32);
    PowAdd(2, 64, 29);
    assert Pow(2, 29) == 536870912 by {
      SmallTwoPowers();
      PowAdd(2, 16, 8);
      PowAdd(2, 24, 4);
      PowAdd(2, 28, 1);
    }
    TenPowerTable(14);
    PowAdd(10, 14, 14);
  }

  /** The number of decimal digits of a 64-bit word. */
  method DigitLength(x: Word64) returns (d: nat)
    ensures d == DigitCount(x)
  {
    if x < 10 { return 1; }
    var z := NumberOfLeadingZerosU64(x);
    assert BitLen(x) == 64 - z by {
      TwoPowers64();
      LeadingZerosBitLen(x, z, 64);
    }
    hide Pow, BitLen, DigitCount;
    var r := ((64 - z + 1) * 1233) / 4096;
    ghost var s, e := LowerStart();
    ghost var n, p := NinetyThreeBits();
    EstimatedDigits(x, e + 15, s, n, p, r);
    assert r < 20;
    TenPowerTable(r);
    d := if r == 20 || x < TenPowerU64(r) then r else r + 1;
  }
}
