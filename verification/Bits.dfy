/** Bit counting and decimal digit counting of machine words (src/common/bits.cpp). */
module Bits {
  import opened Words

  /** The number of binary digits of x; none for zero. */
  function BitLen(x: nat): nat {
    if x == 0 then 0 else 1 + BitLen(x / 2)
  }

  /** The bit length b is the one with 2^(b-1) <= x < 2^b. */
  lemma {:induction false} BitLenBounds(x: nat)
    requires x > 0
    ensures BitLen(x) > 0 && Pow(2, BitLen(x) - 1) <= x < Pow(2, BitLen(x))
  {
    var h := x / 2;
    var b := BitLen(h);
    assert BitLen(x) == b + 1 && Pow(2, b + 1) == 2 * Pow(2, b);
    if x > 1 {
      BitLenBounds(h);
      assert Pow(2, b) == 2 * Pow(2, b - 1);
    } else {
      assert b == 0;
    }
  }

  lemma {:induction false} BitLenUnique(x: nat, b: nat)
    requires b > 0 && Pow(2, b - 1) <= x < Pow(2, b)
    ensures BitLen(x) == b
  {
    PowPositive(2, b - 1);
    BitLenBounds(x);
    if b < BitLen(x) { PowMonotone(2, b, BitLen(x) - 1); }
    if BitLen(x) < b { PowMonotone(2, BitLen(x), b - 1); }
  }

  lemma {:induction false} SmallTwoPowers()
    ensures Pow(2, 1) == 2 && Pow(2, 2) == 4 && Pow(2, 4) == 16 && Pow(2, 8) == 256 && Pow(2, 16) == 65536
  {
    PowAdd(2, 4, 4);
    PowAdd(2, 8, 8);
  }

  lemma {:induction false} TwoPowers()
    ensures Pow(2, 31) == 0x8000_0000 && Pow(2, 32) == 0x1_0000_0000
  {
    SmallTwoPowers();
    PowAdd(2, 16, 16);
    assert Pow(2, 32) == 2 * Pow(2, 31);
  }

  lemma {:induction false} TwoPowers64()
    ensures Pow(2, 63) == 0x8000_0000_0000_0000 && Pow(2, 64) == 0x1_0000_0000_0000_0000
  {
    TwoPowers();
    PowAdd(2, 32, 32);
    assert Pow(2, 64) == 2 * Pow(2, 63);
  }

  /** 2^n and 2^(32 - n) multiply to one limb. */
  lemma {:induction false} ShiftFactors(n: nat)
    requires n <= 32
    ensures Pow(2, n) > 0 && Pow(2, 32 - n) > 0 && Pow(2, n) * Pow(2, 32 - n) == 0x1_0000_0000
  {
    PowPositive(2, n);
    PowPositive(2, 32 - n);
    PowAdd(2, n, 32 - n);
    TwoPowers();
  }

  /** i is x shifted up by n - 1 bits. */
  ghost predicate Shifted(x: Limb, i: Limb, n: nat) {
    n > 0 && i == x * Pow(2, n - 1)
  }

  lemma {:induction false} ShiftMore(x: Limb, i: Limb, n: nat, bits: nat, factor: int)
    requires Shifted(x, i, n) && factor == Pow(2, bits) && i * factor < 0x1_0000_0000
    ensures Wrap32(i * factor) == i * factor && Shifted(x, i * factor, n + bits)
  {
    PowPositive(2, bits);
    MulNonneg(i, factor);
    PowAdd(2, n - 1, bits);
    MulAssoc(x, Pow(2, n - 1), factor);
  }

  /** One step of the search: a word below `limit` is shifted up by `bits`. */
  method SearchStep(ghost x: Limb, i: Limb, n: nat, bits: nat, limit: int, factor: int) returns (i': Limb, n': nat)
    requires Shifted(x, i, n) && factor == Pow(2, bits) && limit > 0 && limit * factor == 0x1_0000_0000
    ensures Shifted(x, i', n')
    ensures if i < limit then n' == n + bits && i' == i * factor else n' == n && i' == i
  {
    i', n' := i, n;
    assert i == (i / limit) * limit + i % limit;
    if i / limit == 0 {
      PowPositive(2, bits);
      MulStrict(i, limit, factor);
      ShiftMore(x, i, n, bits, factor);
      n', i' := n + bits, Wrap32(i * factor);
    } else {
      MulMono(1, i / limit, limit);
    }
  }

  /** The five-step search for the highest set bit. */
  method NumberOfLeadingZerosU32(x: Limb) returns (z: nat)
    ensures x == 0 ==> z == 32
    ensures x > 0 ==> z < 32 && 0x8000_0000 <= x * Pow(2, z) < 0x1_0000_0000
  {
    if x == 0 { return 32; }
    SmallTwoPowers();
    var i: Limb, n: nat := x, 1;
    i, n := SearchStep(x, i, n, 16, 0x1_0000, 0x1_0000);
    i, n := SearchStep(x, i, n, 8, 0x100_0000, 0x100);
    i, n := SearchStep(x, i, n, 4, 0x1000_0000, 0x10);
    i, n := SearchStep(x, i, n, 2, 0x4000_0000, 4);
    z := n - i / 0x8000_0000;
    if i < 0x8000_0000 { ShiftMore(x, i, n, 1, 2); }
  }

  /** The same search on a 64-bit word, which first picks the half to look in. */
  method NumberOfLeadingZerosU64(x: Word64) returns (z: nat)
    ensures x == 0 ==> z == 64
    ensures x > 0 ==> z < 64 && 0x8000_0000_0000_0000 <= x * Pow(2, z) < 0x1_0000_0000_0000_0000
  {
    if x == 0 { return 64; }
    var half: Limb := x / 0x1_0000_0000;
    TwoPowers();
    if half == 0 {
      z := NumberOfLeadingZerosU32(x);
      PowAdd(2, z, 32);
      MulAssoc(x, Pow(2, z), 0x1_0000_0000);
      z := z + 32;
    } else {
      z := NumberOfLeadingZerosU32(half);
      ShiftFactors(z);
      HighHalf(x, half, Pow(2, z), Pow(2, 32 - z));
    }
  }

  /** Shifting the high half to the top of its word shifts the whole word to the top. */
  lemma {:induction false} HighHalf(x: Word64, half: Limb, p: int, p': int)
    requires half == x / 0x1_0000_0000 && p > 0 && p' > 0 && p * p' == 0x1_0000_0000
    requires 0x8000_0000 <= half * p < 0x1_0000_0000
    ensures 0x8000_0000_0000_0000 <= x * p < 0x1_0000_0000_0000_0000
  {
    assert half * 0x1_0000_0000 <= x < (half + 1) * 0x1_0000_0000;
    MulMono(half * 0x1_0000_0000, x, p);
    MulAssoc(half, 0x1_0000_0000, p);
    MulAssoc(half, p, 0x1_0000_0000);
    if half >= p' { MulMono(p', half, p); }
    MulMono(half + 1, p', 0x1_0000_0000);
    MulStrict(x, p' * 0x1_0000_0000, p);
    MulAssoc(p', 0x1_0000_0000, p);
    MulAssoc(p', p, 0x1_0000_0000);
  }

  /** What the leading zero count says about the bit length. */
  lemma {:induction false} LeadingZerosBitLen(x: nat, z: nat, width: nat)
    requires z < width && Pow(2, width - 1) <= x * Pow(2, z) < Pow(2, width)
    ensures BitLen(x) == width - z
  {
    var b := width - z;
    PowPositive(2, z);
    PowAdd(2, b - 1, z);
    PowAdd(2, b, z);
    if x < Pow(2, b - 1) { MulStrict(x, Pow(2, b - 1), Pow(2, z)); }
    if x >= Pow(2, b) { MulMono(Pow(2, b), x, Pow(2, z)); }
    BitLenUnique(x, b);
  }

  method BitLengthU32(x: Limb) returns (b: nat)
    ensures b == BitLen(x) <= 32
  {
    var z := NumberOfLeadingZerosU32(x);
    TwoPowers();
    if x > 0 { LeadingZerosBitLen(x, z, 32); }
    b := 32 - z;
  }

  /** The table of the powers of ten that fit 64 bits. */
  function TenPowerU64(n: nat): Word64
    requires n < 20
  {
    [1, 10, 100, 1000, 10000, 100000, 1000000, 10000000, 100000000, 1000000000,
     10000000000, 100000000000, 1000000000000, 10000000000000, 100000000000000,
     1000000000000000, 10000000000000000, 100000000000000000, 1000000000000000000,
     10000000000000000000][n]
  }

  /** Every entry of the table is the power of ten it stands for. */
  lemma {:induction false} TenPowerTable(n: nat)
    requires n < 20
    ensures TenPowerU64(n) == Pow(10, n)
  {
    if n == 0 {
    } else {
      TenPowerTable(n - 1);
      assert TenPowerU64(n) == 10 * TenPowerU64(n - 1);
    }
  }
}
