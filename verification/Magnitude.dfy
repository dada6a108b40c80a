/**
 Magnitudes: little-endian sequences of 32-bit limbs and the natural numbers they stand for.
 */
module Magnitude {
  import opened Words

  /** 2^(32 n): the weight of limb n. */
  function Weight(n: nat): int { Pow(0x1_0000_0000, n) }

  /** A limb moved up by n limbs. */
  function Raised(x: Limb, n: nat): nat {
    if n == 0 then x else 0x1_0000_0000 * Raised(x, n - 1)
  }

  lemma {:induction false} RaisedIs(x: Limb, n: nat)
    ensures Raised(x, n) == x * Weight(n)
  {
    if n == 0 {
    } else {
      RaisedIs(x, n - 1);
      MulAssoc(0x1_0000_0000, x, Weight(n - 1));
      MulAssoc(x, 0x1_0000_0000, Weight(n - 1));
    }
  }

  /** The number a magnitude stands for. */
  function Val(s: seq<Limb>): nat {
    if |s| == 0 then 0 else Val(s[..|s| - 1]) + Raised(s[|s| - 1], |s| - 1)
  }

  /** A magnitude in normal form has no leading zero limb; zero is the empty magnitude. */
  predicate Normal(s: seq<Limb>) {
    |s| == 0 || s[|s| - 1] != 0
  }

  lemma {:induction false} WeightStep(n: nat)
    ensures Weight(n + 1) == 0x1_0000_0000 * Weight(n) && Weight(n) > 0 && Weight(0) == 1
  {
    PowPositive(0x1_0000_0000, n);
  }

  lemma {:induction false} WeightAdd(m: nat, n: nat)
    ensures Weight(m + n) == Weight(m) * Weight(n)
  {
    PowAdd(0x1_0000_0000, m, n);
  }

  lemma {:induction false} ValEmpty()
    ensures Val([]) == 0
  {}

  lemma {:induction false} ValTake(s: seq<Limb>, i: nat)
    requires i < |s|
    ensures Val(s[..i + 1]) == Val(s[..i]) + s[i] * Weight(i)
  {
    assert s[..i + 1][..i] == s[..i];
    RaisedIs(s[i], i);
  }

  lemma {:induction false} ValSnoc(s: seq<Limb>, x: Limb)
    ensures Val(s + [x]) == Val(s) + x * Weight(|s|)
  {
    assert (s + [x])[..|s|] == s;
    RaisedIs(x, |s|);
  }

  /** The top limb of a magnitude. */
  lemma {:induction false} ValTop(s: seq<Limb>)
    requires |s| > 0
    ensures Val(s) == Val(s[..|s| - 1]) + s[|s| - 1] * Weight(|s| - 1)
  {
    RaisedIs(s[|s| - 1], |s| - 1);
  }

  lemma {:induction false} ValBound(s: seq<Limb>)
    ensures Val(s) < Weight(|s|)
  {
    if |s| == 0 {
    } else {
      var n := |s| - 1;
      ValBound(s[..n]);
      ValTop(s);
      WeightStep(n);
      MulMono(s[n], 0x1_0000_0000 - 1, Weight(n));
    }
  }

  lemma {:induction false} ValAppend(a: seq<Limb>, b: seq<Limb>)
    ensures Val(a + b) == Val(a) + Weight(|a|) * Val(b)
    decreases |b|
  {
    if |b| == 0 {
      assert a + b == a;
    } else {
      var n := |b| - 1;
      assert (a + b)[..|a| + n] == a + b[..n];
      ValAppend(a, b[..n]);
      RaisedMore(b[n], |a|, n);
      MulDistribute(Weight(|a|), Val(b[..n]), Raised(b[n], n));
    }
  }

  lemma {:induction false} RaisedMore(x: Limb, m: nat, n: nat)
    ensures Raised(x, m + n) == Weight(m) * Raised(x, n)
  {
    RaisedIs(x, m + n);
    RaisedIs(x, n);
    PowAdd(0x1_0000_0000, m, n);
    MulAssoc(x, Weight(m), Weight(n));
    MulAssoc(Weight(m), x, Weight(n));
  }

  /** A magnitude cut at limb i: low part, then high part times the weight of i. */
  lemma {:induction false} ValSplit(s: seq<Limb>, i: nat)
    requires i <= |s|
    ensures Val(s) == Val(s[..i]) + Weight(i) * Val(s[i..])
  {
    assert s == s[..i] + s[i..];
    ValAppend(s[..i], s[i..]);
  }

  lemma {:induction false} ValOne(x: Limb)
    ensures Val([x]) == x
  {
    assert [x][..0] == [];
    WeightStep(0);
  }

  lemma {:induction false} ValTwo(x: Limb, y: Limb)
    ensures Val([x, y]) == x + y * 0x1_0000_0000
  {
    assert [x, y] == [x] + [y];
    ValOne(x);
    ValSnoc([x], y);
    WeightStep(0);
  }

  lemma {:induction false} ValZeros(s: seq<Limb>)
    requires forall k :: 0 <= k < |s| ==> s[k] == 0
    ensures Val(s) == 0
  {
    if |s| == 0 {
    } else {
      ValZeros(s[..|s| - 1]);
      ValTop(s);
    }
  }

  /** High zero limbs do not count. */
  lemma {:induction false} ValTrim(s: seq<Limb>, n: nat)
    requires n <= |s| && forall k :: n <= k < |s| ==> s[k] == 0
    ensures Val(s) == Val(s[..n])
  {
    ValSplit(s, n);
    ValZeros(s[n..]);
  }

  /** The top limb decides how large a normal magnitude is. */
  lemma {:induction false} NormalLower(s: seq<Limb>)
    requires |s| > 0 && s[|s| - 1] != 0
    ensures Weight(|s| - 1) <= Val(s)
  {
    WeightStep(|s| - 1);
    ValTop(s);
    MulMono(1, s[|s| - 1], Weight(|s| - 1));
  }

  /** Limbs whose value needs them all have no zero at the top. */
  lemma {:induction false} NormalIfLarge(s: seq<Limb>)
    requires |s| > 0 && Weight(|s| - 1) <= Val(s)
    ensures Normal(s)
  {
    ValTop(s);
    ValBound(s[..|s| - 1]);
  }

  /** Two magnitudes of one length are ordered by their highest differing limb. */
  lemma {:induction false} ValLess(a: seq<Limb>, b: seq<Limb>, i: nat)
    requires |a| == |b| && i < |a| && a[i] < b[i] && a[i + 1..] == b[i + 1..]
    ensures Val(a) < Val(b)
  {
    var w, h := Weight(i), Weight(i + 1) * Val(a[i + 1..]);
    assert Val(a) < (a[i] + 1) * w + h by {
      ValSplit(a, i + 1);
      ValTake(a, i);
      ValBound(a[..i]);
    }
    assert Val(b) >= b[i] * w + h by {
      ValSplit(b, i + 1);
      ValTake(b, i);
    }
    WeightStep(i);
    MulMono(a[i] + 1, b[i], w);
  }

  lemma {:induction false} ValInjective(a: seq<Limb>, b: seq<Limb>)
    requires |a| == |b| && Val(a) == Val(b)
    ensures a == b
    decreases |a|
  {
    if |a| > 0 {
      var n := |a| - 1;
      assert a[n + 1..] == b[n + 1..];
      if a[n] < b[n] {
        ValLess(a, b, n);
      } else if b[n] < a[n] {
        ValLess(b, a, n);
      } else {
        ValInjective(a[..n], b[..n]);
        assert a == a[..n] + [a[n]] && b == b[..n] + [b[n]];
      }
    }
  }

  /** A longer normal magnitude is larger. */
  lemma {:induction false} LongerIsLarger(a: seq<Limb>, b: seq<Limb>)
    requires Normal(b) && |a| < |b|
    ensures Val(a) < Val(b)
  {
    ValBound(a);
    NormalLower(b);
    PowMonotone(0x1_0000_0000, |a|, |b| - 1);
  }

  /** Normal magnitudes are canonical. */
  lemma {:induction false} NormalUnique(a: seq<Limb>, b: seq<Limb>)
    requires Normal(a) && Normal(b) && Val(a) == Val(b)
    ensures a == b
  {
    if |a| < |b| {
      LongerIsLarger(a, b);
    } else if |b| < |a| {
      LongerIsLarger(b, a);
    } else {
      ValInjective(a, b);
    }
  }

  /** Zero is the empty normal magnitude and nothing else. */
  lemma {:induction false} NormalZero(s: seq<Limb>)
    requires Normal(s)
    ensures Val(s) == 0 <==> s == []
  {
    if |s| > 0 { NormalLower(s); WeightStep(|s| - 1); }
  }

  /** The normal magnitude of a number. */
  function Limbs(v: nat): (s: seq<Limb>)
    ensures Normal(s) && Val(s) == v
  {
    if v == 0 then []
    else
      var rest := Limbs(v / 0x1_0000_0000);
      ValAppend([v % 0x1_0000_0000], rest);
      ValOne(v % 0x1_0000_0000);
      WeightStep(0);
      NormalZero(rest);
      [v % 0x1_0000_0000] + rest
  }
}
