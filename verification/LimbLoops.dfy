/**
 The in-place loops over raw limb buffers that long division is built from.
 `uint64_t` arithmetic is written with `Wrap64`; that it never wraps where it must not is
 a consequence of the exact postconditions.
 */
module LimbLoops {
  import opened Words
  import opened Magnitude
  import opened Bits

  /** Shifting one limb left: what stays in the limb and what leaves it at the top. */
  lemma {:induction false} ShlParts(x: Limb, p: int, p': int)
    requires p > 0 && p' > 0 && p * p' == 0x1_0000_0000
    ensures Wrap32(x * p) == x * p - 0x1_0000_0000 * (x / p') == (x % p') * p
    ensures 0 <= x / p' < p
  {
    var h, l := x / p', x % p';
    assert x == h * p' + l;
    assert x * p == h * 0x1_0000_0000 + l * p by {
      assert (h * p' + l) * p == h * p' * p + l * p;
      MulAssoc(h, p', p);
    }
    MulMono(l, p' - 1, p);
    assert (p' - 1) * p == 0x1_0000_0000 - p;
    MulNonneg(l, p);
    DivUnique(x * p, 0x1_0000_0000, h, l * p);
    if h >= p { MulMono(p, h, p'); }
  }

  /** The limb shifted left by p and the bits that enter it from its neighbour fit together. */
  lemma {:induction false} OrFits(x: Limb, y: Limb, p: int, p': int)
    requires p > 0 && p' > 0 && p * p' == 0x1_0000_0000
    ensures 0 <= y / p' && Wrap32(x * p) + y / p' < 0x1_0000_0000
  {
    ShlParts(y, p, p');
    assert Wrap32(x * p) <= 0x1_0000_0000 - p by {
      ShlParts(x, p, p');
      MulMono(x % p', p' - 1, p);
    }
  }

  /** Limb k of a magnitude shifted left by n bits (the two operands of `|` share no bit). */
  function ShlLimb(s: seq<Limb>, k: nat, n: nat): Limb
    requires k < |s| && 0 < n < 32
  {
    ShiftFactors(n);
    ShlParts(s[k], Pow(2, n), Pow(2, 32 - n));
    if k == 0 then Wrap32(s[0] * Pow(2, n))
    else
      OrFits(s[k], s[k - 1], Pow(2, n), Pow(2, 32 - n));
      Wrap32(s[k] * Pow(2, n)) + s[k - 1] / Pow(2, 32 - n)
  }

  lemma {:induction false} ShlValue(s: seq<Limb>, t: seq<Limb>, k: nat, n: nat)
    requires k < |s| <= |t| && 0 < n < 32
    requires forall j :: 0 <= j <= k ==> t[j] == ShlLimb(s, j, n)
    ensures Pow(2, 32 - n) > 0
    ensures Val(t[..k + 1]) == Val(s[..k + 1]) * Pow(2, n) - Weight(k + 1) * (s[k] / Pow(2, 32 - n))
  {
    var p, p' := Pow(2, n), Pow(2, 32 - n);
    ShiftFactors(n);
    ShlParts(s[k], p, p');
    WeightStep(k);
    ValTake(s, k);
    ValTake(t, k);
    var w, h := Weight(k), s[k] / p';
    if k == 0 {
      assert s[..0] == [] && t[..0] == [];
    } else {
      ShlValue(s, t, k - 1, n);
      var g := s[k - 1] / p';
      ShlStep(Val(s[..k]), Val(t[..k]), p, w, s[k], h, g);
    }
  }

  lemma {:induction false} ShlStep(vs: int, vt: int, p: int, w: int, x: int, h: int, g: int)
    requires vt == vs * p - w * g
    ensures vt + (x * p - 0x1_0000_0000 * h + g) * w == (vs + x * w) * p - (0x1_0000_0000 * w) * h
  {
    calc {
      vt + (x * p - 0x1_0000_0000 * h + g) * w;
      vs * p - w * g + (x * p) * w - (0x1_0000_0000 * h) * w + g * w;
      vs * p + (x * p) * w - (0x1_0000_0000 * h) * w;
      { MulAssoc(x, p, w); MulAssoc(x, w, p); MulAssoc(0x1_0000_0000, h, w); MulAssoc(0x1_0000_0000, w, h); }
      vs * p + (x * w) * p - (0x1_0000_0000 * w) * h;
      (vs + x * w) * p - (0x1_0000_0000 * w) * h;
    }
  }

  /**
   Shifts a magnitude left into a buffer that is not shorter. The bits that leave the top
   limb are lost; the caller stores them in the next limb.
   */
  method ShiftLeft(s: seq<Limb>, out: array<Limb>, n: nat)
    requires 0 < |s| <= out.Length && n < 32
    modifies out
    ensures Pow(2, 32 - n) > 0
    ensures Val(out[..|s|]) == Val(s) * Pow(2, n) - Weight(|s|) * (s[|s| - 1] / Pow(2, 32 - n))
    ensures forall k :: |s| <= k < out.Length ==> out[k] == old(out[k])
  {
    hide Val, Weight;
    ShiftFactors(n);
    if n == 0 {
      forall k | 0 <= k < |s| { out[k] := s[k]; }
      assert out[..|s|] == s;
      TwoPowers();
      return;
    }
    var i := |s| - 1;
    while i > 0
      invariant 0 <= i < |s|
      invariant forall k :: i < k < |s| ==> out[k] == ShlLimb(s, k, n)
      invariant forall k :: |s| <= k < out.Length ==> out[k] == old(out[k])
    {
      out[i] := ShlLimb(s, i, n);
      i := i - 1;
    }
    out[0] := ShlLimb(s, 0, n);
    ShlValue(s, out[..], |s| - 1, n);
    assert s[..|s|] == s;
  }

  /** Limb k of a magnitude of `len` limbs shifted right by n bits. */
  function ShrLimb(s: seq<Limb>, k: nat, len: nat, n: nat): Limb
    requires k < len <= |s| && 0 < n < 32
  {
    ShiftFactors(n);
    ShlParts(s[k], Pow(2, 32 - n), Pow(2, n));
    if k == len - 1 then s[k] / Pow(2, n)
    else
      OrFits(s[k + 1], s[k], Pow(2, 32 - n), Pow(2, n));
      s[k] / Pow(2, n) + Wrap32(s[k + 1] * Pow(2, 32 - n))
  }

  lemma {:induction false} ShrValue(s: seq<Limb>, t: seq<Limb>, k: nat, len: nat, n: nat)
    requires k < len <= |s| && len <= |t| && 0 < n < 32
    requires forall j :: 0 <= j < len ==> t[j] == ShrLimb(s, j, len, n)
    ensures Pow(2, n) > 0
    ensures Val(t[..k]) * Pow(2, n) == Val(s[..k]) - s[0] % Pow(2, n) + (s[k] % Pow(2, n)) * Weight(k)
  {
    hide Weight, Pow;
    var p, p' := Pow(2, n), Pow(2, 32 - n);
    ShiftFactors(n);
    if k == 0 {
      assert s[..0] == [] && t[..0] == [];
      WeightStep(0);
    } else {
      ShrValue(s, t, k - 1, len, n);
      ValTake(s, k - 1);
      ValTake(t, k - 1);
      WeightStep(k - 1);
      assert t[k - 1] == s[k - 1] / p + (s[k] % p) * p' by { ShlParts(s[k], p', p); }
      ShrStep(Val(s[..k - 1]), Val(t[..k - 1]), s[0] % p, p, p', Weight(k - 1), s[k - 1], s[k] % p);
    }
  }

  lemma {:induction false} ShrStep(vs: int, vt: int, low: int, p: int, p': int, w: int, x: int, y: int)
    requires p > 0 && p * p' == 0x1_0000_0000
    requires vt * p == vs - low + (x % p) * w
    ensures (vt + (x / p + y * p') * w) * p == (vs + x * w) - low + y * (0x1_0000_0000 * w)
  {
    var h, l := x / p, x % p;
    assert x == h * p + l;
    calc {
      (vt + (h + y * p') * w) * p;
      vt * p + ((h + y * p') * w) * p;
      { MulAssoc(h + y * p', w, p); MulAssoc(h + y * p', p, w); }
      vt * p + ((h + y * p') * p) * w;
      { assert (h + y * p') * p == h * p + (y * p') * p; MulAssoc(y, p', p); }
      vt * p + (h * p + y * 0x1_0000_0000) * w;
      vs - low + l * w + (h * p) * w + (y * 0x1_0000_0000) * w;
      { MulAssoc(y, 0x1_0000_0000, w); }
      vs - low + (h * p + l) * w + y * (0x1_0000_0000 * w);
    }
  }

  /** Shifts the first `len` limbs right by n bits into a buffer that is not shorter. */
  method ShiftRight(s: seq<Limb>, len: nat, out: array<Limb>, n: nat)
    requires 0 < len <= |s| && len <= out.Length && n < 32
    modifies out
    ensures Pow(2, n) > 0
    ensures Val(s[..len]) == Val(out[..len]) * Pow(2, n) + s[0] % Pow(2, n)
    ensures forall k :: len <= k < out.Length ==> out[k] == old(out[k])
  {
    ShiftFactors(n);
    if n == 0 {
      forall k | 0 <= k < len { out[k] := s[k]; }
      assert out[..len] == s[..len];
      return;
    }
    var i := 0;
    while i < len - 1
      invariant 0 <= i <= len - 1
      invariant forall k :: 0 <= k < i ==> out[k] == ShrLimb(s, k, len, n)
      invariant forall k :: len <= k < out.Length ==> out[k] == old(out[k])
    {
      out[i] := ShrLimb(s, i, len, n);
      i := i + 1;
    }
    out[len - 1] := ShrLimb(s, len - 1, len, n);
    ShrTotal(s, out[..len], len, n);
  }

  lemma {:induction false} ShrTotal(s: seq<Limb>, t: seq<Limb>, len: nat, n: nat)
    requires 0 < len <= |s| && len == |t| && 0 < n < 32
    requires forall j :: 0 <= j < len ==> t[j] == ShrLimb(s, j, len, n)
    ensures Pow(2, n) > 0
    ensures Val(s[..len]) == Val(t) * Pow(2, n) + s[0] % Pow(2, n)
  {
    hide Val, Weight, Pow;
    var p := Pow(2, n);
    ShiftFactors(n);
    ShrValue(s, t, len - 1, len, n);
    ValTake(s, len - 1);
    ValTake(t, len - 1);
    assert t[..len] == t;
    ShrStep(Val(s[..len - 1]), Val(t[..len - 1]), s[0] % p, p, Pow(2, 32 - n), Weight(len - 1), s[len - 1], 0);
  }

  /** The wrapped unsigned difference, read back as signed, is the true difference. */
  lemma {:induction false} SignedDifference(d: int)
    requires -2 * 0x1_0000_0000 < d < 0x1_0000_0000
    ensures Signed64(Wrap64(d)) == d
  {
    if d < 0 { DivUnique(d, 0x1_0000_0000_0000_0000, -1, d + 0x1_0000_0000_0000_0000); }
  }

  lemma {:induction false} ProductFits(a: Limb, x: Limb)
    ensures 0 <= a * x <= (0x1_0000_0000 - 1) * (0x1_0000_0000 - 1)
  {
    MulMono(a, 0x1_0000_0000 - 1, x);
    MulMono(x, 0x1_0000_0000 - 1, 0x1_0000_0000 - 1);
    MulNonneg(a, x);
  }

  /** The borrow out of one limb fits one limb. */
  lemma {:induction false} BorrowFits(product: int, q: Limb, carry: Limb)
    requires 0 <= product <= (0x1_0000_0000 - 1) * (0x1_0000_0000 - 1)
    ensures var d := q - carry - product % 0x1_0000_0000;
      0 <= product / 0x1_0000_0000 - d / 0x1_0000_0000 < 0x1_0000_0000
      && q - product - carry == d % 0x1_0000_0000 - 0x1_0000_0000 * (product / 0x1_0000_0000 - d / 0x1_0000_0000)
  {}

  /** One limb of q - a * x: the mix of wrapped unsigned and signed words gives the exact borrow. */
  method SubstructLimb(q: Limb, a: Limb, x: Limb, carry: Limb) returns (q': Limb, carry': Limb)
    ensures q - a * x - carry == q' - 0x1_0000_0000 * carry'
  {
    ghost var ax := a * x;
    ProductFits(a, x);
    WrapNoop(ax);
    var product := Wrap64(a * x);
    assert product == ax;
    BorrowFits(product, q, carry);
    var low, high := product % 0x1_0000_0000, product / 0x1_0000_0000;
    SignedDifference(q - carry - low);
    var difference := Signed64(Wrap64(q - carry - low));
    WrapNoop(high - difference / 0x1_0000_0000);
    q' := Wrap32(difference);
    carry' := Wrap64(high - difference / 0x1_0000_0000);
  }

  lemma {:induction false} WrapNoop(x: int)
    requires 0 <= x < 0x1_0000_0000_0000_0000
    ensures Wrap64(x) == x
  {}

  lemma {:induction false} MulSubStep(vo: int, va: int, vn: int, x: int, w: int, c: int, q: int, a: int, q': int,
                                      c': int)
    requires vo - va * x == vn - w * c
    requires q - a * x - c == q' - 0x1_0000_0000 * c'
    ensures (vo + q * w) - (va + a * w) * x == (vn + q' * w) - (0x1_0000_0000 * w) * c'
  {
    calc {
      (vo + q * w) - (va + a * w) * x;
      vo - va * x + q * w - (a * w) * x;
      { MulAssoc(a, w, x); MulAssoc(a, x, w); }
      vn - w * c + q * w - (a * x) * w;
      vn + (q - a * x - c) * w;
      vn + (q' - 0x1_0000_0000 * c') * w;
      vn + q' * w - (0x1_0000_0000 * c') * w;
      { MulAssoc(0x1_0000_0000, c', w); MulAssoc(0x1_0000_0000, w, c'); }
      (vn + q' * w) - (0x1_0000_0000 * w) * c';
    }
  }

  /** Subtracts a * x from the window of q that starts at `off`; the result is the borrow out. */
  method MultiplyAndSubstruct(q: array<Limb>, off: nat, a: array<Limb>, alen: nat, x: Limb) returns (borrow: Limb)
    requires q != a && alen <= a.Length && off + alen <= q.Length
    modifies q
    ensures Val(old(q[off..off + alen])) - Val(a[..alen]) * x
         == Val(q[off..off + alen]) - Weight(alen) * borrow
    ensures forall k :: 0 <= k < off || off + alen <= k < q.Length ==> q[k] == old(q[k])
  {
    hide Val, Weight;
    ghost var start := q[off..off + alen];
    assert start[..0] == [] && a[..0] == [] && q[off..off] == [];
    ValEmpty();
    var carry: Limb := 0;
    var i := 0;
    while i < alen
      invariant 0 <= i <= alen
      invariant forall k :: 0 <= k < off || off + i <= k < q.Length ==> q[k] == old(q[k])
      invariant Val(start[..i]) - Val(a[..i]) * x == Val(q[off..off + i]) - Weight(i) * carry
    {
      ghost var before, c := q[off..off + i], carry;
      var limb, next := SubstructLimb(q[off + i], a[i], x, carry);
      q[off + i], carry := limb, next;
      assert q[off..off + i + 1] == before + [limb];
      assert a[..][..i] == a[..i] && a[..][..i + 1] == a[..i + 1];
      SubstructStep(start, a[..], before, x, c, limb, carry, i);
      i := i + 1;
    }
    assert start[..alen] == start;
    borrow := carry;
  }

  lemma {:induction false} SubstructStep(start: seq<Limb>, a: seq<Limb>, before: seq<Limb>, x: Limb, c: Limb,
                                         limb: Limb, carry: Limb, i: nat)
    requires i < |start| && i < |a| && |before| == i
    requires Val(start[..i]) - Val(a[..i]) * x == Val(before) - Weight(i) * c
    requires start[i] - a[i] * x - c == limb - 0x1_0000_0000 * carry
    ensures Val(start[..i + 1]) - Val(a[..i + 1]) * x == Val(before + [limb]) - Weight(i + 1) * carry
  {
    ValSnoc(before, limb);
    ValTake(start, i);
    ValTake(a, i);
    WeightStep(i);
    hide Val, Weight;
    MulSubStep(Val(start[..i]), Val(a[..i]), Val(before), x, Weight(i), c, start[i], a[i], limb, carry);
  }

  lemma {:induction false} AddStep(vo: int, va: int, vn: int, w: int, c: int, q: int, a: int, q': int, c': int)
    requires vo + va == vn + w * c
    requires q + a + c == q' + 0x1_0000_0000 * c'
    ensures (vo + q * w) + (va + a * w) == (vn + q' * w) + (0x1_0000_0000 * w) * c'
  {
    calc {
      vo + va + (q + a) * w;
      vn + w * c + (q + a) * w;
      vn + (q + a + c) * w;
      vn + (q' + 0x1_0000_0000 * c') * w;
      vn + q' * w + (0x1_0000_0000 * c') * w;
      { MulAssoc(0x1_0000_0000, c', w); MulAssoc(0x1_0000_0000, w, c'); }
      (vn + q' * w) + (0x1_0000_0000 * w) * c';
    }
  }

  /** One limb of an addition: the 64-bit sum does not wrap and carries at most 1. */
  method AddLimb(q: Limb, a: Limb, carry: Limb) returns (q': Limb, carry': Limb)
    requires carry <= 1
    ensures q + a + carry == q' + 0x1_0000_0000 * carry' && carry' <= 1
  {
    var sum := Wrap64(q + a + carry);
    q' := Wrap32(sum);
    carry' := sum / 0x1_0000_0000;
  }

  /** Adds `len` limbs of the addend to the window of res that starts at `off`. */
  method AddLimbs(res: array<Limb>, off: nat, addend: array<Limb>, len: nat) returns (carryOut: Limb)
    requires res != addend && len <= addend.Length && off + len <= res.Length
    modifies res
    ensures Val(old(res[off..off + len])) + Val(addend[..len]) == Val(res[off..off + len]) + Weight(len) * carryOut
    ensures carryOut <= 1
    ensures forall k :: 0 <= k < off || off + len <= k < res.Length ==> res[k] == old(res[k])
  {
    hide Val, Weight;
    ghost var start := res[off..off + len];
    assert start[..0] == [] && addend[..0] == [] && res[off..off] == [];
    ValEmpty();
    var carry: Limb := 0;
    var i := 0;
    while i < len
      invariant 0 <= i <= len && carry <= 1
      invariant forall k :: 0 <= k < off || off + i <= k < res.Length ==> res[k] == old(res[k])
      invariant Val(start[..i]) + Val(addend[..i]) == Val(res[off..off + i]) + Weight(i) * carry
    {
      ghost var before, c := res[off..off + i], carry;
      var limb, next := AddLimb(res[off + i], addend[i], carry);
      res[off + i], carry := limb, next;
      assert res[off..off + i + 1] == before + [limb];
      assert addend[..][..i] == addend[..i] && addend[..][..i + 1] == addend[..i + 1];
      SumStep(start, addend[..], before, c, limb, carry, i);
      i := i + 1;
    }
    assert start[..len] == start;
    carryOut := carry;
  }

  lemma {:induction false} SumStep(start: seq<Limb>, a: seq<Limb>, before: seq<Limb>, c: Limb, limb: Limb,
                                   carry: Limb, i: nat)
    requires i < |start| && i < |a| && |before| == i
    requires Val(start[..i]) + Val(a[..i]) == Val(before) + Weight(i) * c
    requires start[i] as int + a[i] + c == limb + 0x1_0000_0000 * carry
    ensures Val(start[..i + 1]) + Val(a[..i + 1]) == Val(before + [limb]) + Weight(i + 1) * carry
  {
    ValSnoc(before, limb);
    ValTake(start, i);
    ValTake(a, i);
    WeightStep(i);
    hide Val, Weight;
    AddStep(Val(start[..i]), Val(a[..i]), Val(before), Weight(i), c, start[i], a[i], limb, carry);
  }

  /** Adds one limb to the window of res from `off` to its end, as far as there is a carry. */
  method PropagateCarry(res: array<Limb>, off: nat, addend: Limb) returns (carryOut: Limb)
    requires off <= res.Length
    modifies res
    ensures Val(old(res[off..])) + addend == Val(res[off..]) + Weight(res.Length - off) * carryOut
    ensures forall k :: 0 <= k < off ==> res[k] == old(res[k])
  {
    hide Val, Weight;
    ghost var start, len := res[off..], res.Length - off;
    assert start[..0] == [] && res[off..off] == [];
    ValEmpty();
    WeightZero();
    var carry: Limb := addend;
    var i := 0;
    while off + i < res.Length && carry != 0
      invariant 0 <= i <= len
      invariant forall k :: 0 <= k < off ==> res[k] == old(res[k])
      invariant res[off + i..] == start[i..]
      invariant Val(start[..i]) + addend == Val(res[off..off + i]) + Weight(i) * carry
    {
      ghost var before, c := res[off..off + i], carry;
      assert res[off + i] == start[i];
      var limb, next := CarryLimb(res[off + i], carry);
      res[off + i], carry := limb, next;
      assert res[off..off + i + 1] == before + [limb];
      CarryStep(start, before, addend, c, limb, carry, i);
      i := i + 1;
    }
    assert res[off..] == res[off..off + i] + start[i..];
    SameAbove(start, res[off..off + i], i);
    carryOut := carry;
  }

  method CarryLimb(q: Limb, carry: Limb) returns (q': Limb, carry': Limb)
    ensures q as int + carry == q' + 0x1_0000_0000 * carry'
  {
    var sum := Wrap64(q as int + carry);
    q', carry' := Wrap32(sum), sum / 0x1_0000_0000;
  }

  /** Limbs that are the same from i on add the same to both values. */
  lemma {:induction false} SameAbove(s: seq<Limb>, low: seq<Limb>, i: nat)
    requires i <= |s| && |low| == i
    ensures Val(low + s[i..]) - Val(low) == Val(s) - Val(s[..i])
  {
    assert s == s[..i] + s[i..];
    ValAppend(low, s[i..]);
    ValAppend(s[..i], s[i..]);
  }

  lemma {:induction false} WeightZero()
    ensures Weight(0) == 1
  {}

  lemma {:induction false} CarryStep(start: seq<Limb>, before: seq<Limb>, x: Limb, c: Limb, limb: Limb, carry: Limb,
                                     i: nat)
    requires i < |start| && |before| == i
    requires Val(start[..i]) + x == Val(before) + Weight(i) * c
    requires start[i] as int + c == limb + 0x1_0000_0000 * carry
    ensures Val(start[..i + 1]) + x == Val(before + [limb]) + Weight(i + 1) * carry
  {
    ValSnoc(before, limb);
    ValTake(start, i);
    WeightStep(i);
    hide Val, Weight;
    AddStep(Val(start[..i]), x, Val(before), Weight(i), c, start[i], 0, limb, carry);
  }
}
