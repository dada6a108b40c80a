/** Machine words of the driver, written out over unbounded integers, and integer powers. */
module Words {

  /** A `uint8_t`. */
  type Byte = x: int | 0 <= x < 0x100

  /** A `uint32_t`: one limb of a magnitude. */
  type Limb = x: int | 0 <= x < 0x1_0000_0000

  /** A `uint64_t`. */
  type Word64 = x: int | 0 <= x < 0x1_0000_0000_0000_0000

  /** An `int64_t`. */
  type Int64 = x: int | -0x8000_0000_0000_0000 <= x < 0x8000_0000_0000_0000

  /** The conversion to `uint32_t`. */
  function Wrap32(x: int): Limb { x % 0x1_0000_0000 }

  /** The conversion to `uint64_t`, and the result of every `uint64_t` operation. */
  function Wrap64(x: int): Word64 { x % 0x1_0000_0000_0000_0000 }

  /** The conversion from `uint64_t` to `int64_t` (two's complement). */
  function Signed64(x: Word64): Int64 {
    if x < 0x8000_0000_0000_0000 then x else x - 0x1_0000_0000_0000_0000
  }

  function Min(a: int, b: int): int { if a <= b then a else b }

  function Abs(a: int): nat { if a < 0 then -a else a }

  function Pow(b: int, n: nat): int {
    if n == 0 then 1 else b * Pow(b, n - 1)
  }

  lemma {:induction false} PowPositive(b: int, n: nat)
    requires b > 0
    ensures Pow(b, n) > 0
  {
    if n == 0 {
    } else {
      PowPositive(b, n - 1);
    }
  }

  lemma {:induction false} PowAdd(b: int, m: nat, n: nat)
    ensures Pow(b, m + n) == Pow(b, m) * Pow(b, n)
  {
    if m == 0 {
    } else {
      PowAdd(b, m - 1, n);
      MulAssoc(b, Pow(b, m - 1), Pow(b, n));
    }
  }

  lemma {:induction false} PowMul(b: int, m: nat, n: nat)
    ensures 0 <= m * n && Pow(b, m * n) == Pow(Pow(b, m), n)
  {
    if n == 0 {
    } else {
      PowMul(b, m, n - 1);
      assert m * n == m + m * (n - 1);
      PowAdd(b, m, m * (n - 1));
    }
  }

  /** Powers of a base above zero grow with the exponent. */
  lemma {:induction false} PowMonotone(b: int, m: nat, n: nat)
    requires b > 0 && m <= n
    ensures 0 < Pow(b, m) <= Pow(b, n)
  {
    PowPositive(b, m);
    if m == n {
    } else {
      PowMonotone(b, m, n - 1);
      MulMono(1, b, Pow(b, n - 1));
    }
  }

  lemma {:induction false} PowBaseMonotone(a: int, b: int, n: nat)
    requires 0 <= a <= b
    ensures 0 <= Pow(a, n) <= Pow(b, n)
  {
    if n == 0 {
    } else {
      PowBaseMonotone(a, b, n - 1);
      MulMono(Pow(a, n - 1), Pow(b, n - 1), a);
      MulMono(a, b, Pow(b, n - 1));
      MulNonneg(a, Pow(a, n - 1));
    }
  }

  lemma {:induction false} PowBaseStrict(a: int, b: int, n: nat)
    requires 0 <= a < b && n > 0
    ensures Pow(a, n) < Pow(b, n)
  {
    PowBaseMonotone(a, b, n - 1);
    PowPositive(b, n - 1);
    MulMono(Pow(a, n - 1), Pow(b, n - 1), a);
    MulStrict(a, b, Pow(b, n - 1));
  }

  /** Roots are monotone: the inequality between n-th powers is the one between the numbers. */
  lemma {:induction false} RootMonotone(a: int, b: int, n: nat)
    requires 0 <= a && 0 <= b && n > 0
    requires Pow(a, n) <= Pow(b, n)
    ensures a <= b
  {
    if b < a { PowBaseStrict(b, a, n); }
  }

  lemma {:induction false} PowProduct(a: int, b: int, n: nat)
    ensures Pow(a * b, n) == Pow(a, n) * Pow(b, n)
  {
    if n == 0 {
    } else {
      PowProduct(a, b, n - 1);
      var x, y := Pow(a, n - 1), Pow(b, n - 1);
      assert (a * b) * (x * y) == (a * x) * (b * y) by {
        MulAssoc(a, b, x * y);
        MulAssoc(b, x, y);
        MulAssoc(x, b, y);
        MulAssoc(a, x, b * y);
      }
    }
  }

  // Multiplication facts that are named so that proofs can point at one instance.

  lemma {:induction false} MulAssoc(a: int, b: int, c: int)
    ensures (a * b) * c == a * (b * c)
  {}

  lemma {:induction false} MulCommute(a: int, b: int)
    ensures a * b == b * a
  {}

  lemma {:induction false} MulDistribute(a: int, b: int, c: int)
    ensures a * (b + c) == a * b + a * c && (b + c) * a == b * a + c * a
  {}

  lemma {:induction false} MulMono(a: int, b: int, c: int)
    requires a <= b && 0 <= c
    ensures a * c <= b * c && c * a <= c * b
  {}

  lemma {:induction false} MulStrict(a: int, b: int, c: int)
    requires a < b && 0 < c
    ensures a * c < b * c && c * a < c * b
  {}

  lemma {:induction false} MulNonneg(a: int, b: int)
    requires 0 <= a && 0 <= b
    ensures 0 <= a * b
  {}

  /** The quotient and the remainder are the only pair that meets the division identity. */
  lemma {:induction false} DivUnique(n: int, d: int, q: int, r: int)
    requires d > 0 && n == q * d + r && 0 <= r < d
    ensures n / d == q && n % d == r
  {
    var q1, r1 := n / d, n % d;
    assert n == q1 * d + r1;
    if q1 < q {
      MulMono(q1 + 1, q, d);
    } else if q < q1 {
      MulMono(q + 1, q1, d);
    }
  }
}
