/**
 Magnitudes as bytes. A byte is the unsigned reading of an `int8_t`; the operands of `|` in the
 source share no bit, so it is written as a sum.
 */
module MagnitudeBytes {
  import opened Words
  import opened Magnitude
  import opened Bits

  /** The number that bytes stand for, most significant first. */
  function BigEndian(s: seq<Byte>): nat {
    if |s| == 0 then 0 else 256 * BigEndian(s[..|s| - 1]) + s[|s| - 1]
  }

  /** The number that bytes stand for, least significant first. */
  function LittleEndian(s: seq<Byte>): nat {
    if |s| == 0 then 0 else s[0] + 256 * LittleEndian(s[1..])
  }

  function Reverse(s: seq<Byte>): (r: seq<Byte>)
    ensures |r| == |s|
  {
    if |s| == 0 then [] else [s[|s| - 1]] + Reverse(s[..|s| - 1])
  }

  /** The two byte orders read each other's reversal. */
  lemma {:induction false} ReversedOrder(s: seq<Byte>)
    ensures LittleEndian(Reverse(s)) == BigEndian(s)
  {
    if |s| == 0 {
    } else {
      ReversedOrder(s[..|s| - 1]);
      assert Reverse(s)[1..] == Reverse(s[..|s| - 1]);
    }
  }

  lemma {:induction false} BigEndianAppend(a: seq<Byte>, b: seq<Byte>)
    ensures BigEndian(a + b) == BigEndian(a) * Pow(256, |b|) + BigEndian(b)
    decreases |b|
  {
    if |b| == 0 {
      assert a + b == a;
    } else {
      var n := |b| - 1;
      assert (a + b)[..|a| + n] == a + b[..n];
      BigEndianAppend(a, b[..n]);
      MulAssoc(256, BigEndian(a), Pow(256, n));
      MulAssoc(BigEndian(a), 256, Pow(256, n));
    }
  }

  lemma {:induction false} LittleEndianAppend(a: seq<Byte>, b: seq<Byte>)
    ensures LittleEndian(a + b) == LittleEndian(a) + Pow(256, |a|) * LittleEndian(b)
    decreases |a|
  {
    if |a| == 0 {
      assert a + b == b;
    } else {
      assert (a + b)[1..] == a[1..] + b;
      LittleEndianAppend(a[1..], b);
      MulAssoc(256, Pow(256, |a| - 1), LittleEndian(b));
    }
  }

  lemma {:induction false} BigEndianBound(s: seq<Byte>)
    ensures BigEndian(s) < Pow(256, |s|)
  {
    if |s| == 0 {
    } else {
      BigEndianBound(s[..|s| - 1]);
    }
  }

  lemma {:induction false} BigEndianZeros(s: seq<Byte>)
    requires forall k :: 0 <= k < |s| ==> s[k] == 0
    ensures BigEndian(s) == 0
  {
    if |s| == 0 {
    } else {
      BigEndianZeros(s[..|s| - 1]);
    }
  }

  lemma {:induction false} LittleEndianZeros(s: seq<Byte>)
    requires forall k :: 0 <= k < |s| ==> s[k] == 0
    ensures LittleEndian(s) == 0
  {
    if |s| == 0 {
    } else {
      LittleEndianZeros(s[1..]);
    }
  }

  /** A first byte that is not zero decides the length. */
  lemma {:induction false} BigEndianLower(s: seq<Byte>)
    requires |s| > 0 && s[0] != 0
    ensures Pow(256, |s| - 1) <= BigEndian(s)
  {
    if |s| == 1 {
      assert s[..0] == [];
    } else {
      BigEndianLower(s[..|s| - 1]);
    }
  }

  /** No shorter bytes stand for the same number. */
  lemma {:induction false} Shortest(s: seq<Byte>, t: seq<Byte>)
    requires |s| > 0 && s[0] != 0 && BigEndian(s) == BigEndian(t)
    ensures |s| <= |t|
  {
    BigEndianLower(s);
    BigEndianBound(t);
    if |t| < |s| { PowMonotone(256, |t|, |s| - 1); }
  }

  lemma {:induction false} FourBytesPerLimb(i: nat)
    ensures Pow(256, 4 * i) == Weight(i)
  {
    assert Pow(256, 4) == 0x1_0000_0000 by {
      assert Pow(256, 1) == 256 && Pow(256, 2) == 65536;
      PowAdd(256, 2, 2);
    }
    PowMul(256, 4, i);
  }

  /** One to four bytes, most significant first. */
  lemma {:induction false} FewBytes(s: seq<Byte>)
    requires 1 <= |s| <= 4
    ensures BigEndian(s) ==
      (if |s| >= 4 then s[|s| - 4] as int * 0x100_0000 else 0) + (if |s| >= 3 then s[|s| - 3] as int * 0x1_0000 else 0)
      + (if |s| >= 2 then s[|s| - 2] as int * 0x100 else 0) + s[|s| - 1]
    decreases |s|
  {
    if |s| == 1 {
      assert s[..0] == [];
    } else {
      FewBytes(s[..|s| - 1]);
    }
  }

  /** The limb that the last bytes of a group of one to four make. */
  function LimbOf(s: seq<Byte>): (x: Limb)
    requires 1 <= |s| <= 4
    ensures x == BigEndian(s)
  {
    FewBytes(s);
    var n := |s|;
    (if n >= 4 then s[n - 4] as int * 0x100_0000 else 0) + (if n >= 3 then s[n - 3] as int * 0x1_0000 else 0)
    + (if n >= 2 then s[n - 2] as int * 0x100 else 0) + s[n - 1]
  }

  /** The big-endian constructor: leading zero bytes are skipped, limbs are filled from the end. */
  method FromBigEndian(val: seq<Byte>) returns (mag: seq<Limb>)
    ensures Normal(mag) && Val(mag) == BigEndian(val)
  {
    var len, first := |val|, 0;
    while first < len && val[first] == 0
      invariant 0 <= first <= len && forall k :: 0 <= k < first ==> val[k] == 0
    {
      first := first + 1;
    }
    assert val == val[..first] + val[first..];
    BigEndianAppend(val[..first], val[first..]);
    BigEndianZeros(val[..first]);
    if first == len {
      assert val[first..] == [];
      return [];
    }
    mag := LimbsFromBigEndian(val[first..]);
  }

  /** The limbs of bytes without a leading zero. */
  method LimbsFromBigEndian(s: seq<Byte>) returns (mag: seq<Limb>)
    requires |s| > 0 && s[0] != 0
    ensures Normal(mag) && Val(mag) == BigEndian(s)
  {
    hide BigEndian, Val, Weight;
    var intLength := (|s| + 3) / 4;
    var limbs := new Limb[intLength](_ => 0);
    var i := 0;
    EmptyMagnitude(limbs[..0], s[|s|..]);
    while i < intLength - 1
      invariant 0 <= i <= intLength - 1 && Val(limbs[..i]) == BigEndian(s[|s| - 4 * i..])
    {
      var b := |s| - 4 * i;
      ghost var low := limbs[..i];
      limbs[i] := LimbOf(s[b - 4..b]);
      assert limbs[..i + 1] == low + [limbs[i]];
      NextGroup(s, b, i, low, limbs[i]);
      i := i + 1;
    }
    var rest := |s| - 4 * i;
    ghost var low := limbs[..i];
    limbs[i] := LimbOf(s[..rest]);
    assert limbs[..] == low + [limbs[i]];
    assert s[0..rest] == s[..rest] && s[0..] == s;
    LastGroup(s, rest, i, low, limbs[i]);
    BigEndianLower(s[..rest]);
    PowPositive(256, rest - 1);
    mag := limbs[..];
  }

  lemma {:induction false} EmptyMagnitude(a: seq<Limb>, s: seq<Byte>)
    requires a == [] && s == []
    ensures Val(a) == 0 == BigEndian(s) && LittleEndian(s) == 0
  {}

  lemma {:induction false} NextGroup(s: seq<Byte>, b: nat, i: nat, low: seq<Limb>, x: Limb)
    requires b == |s| - 4 * i && 4 <= b && |low| == i && Val(low) == BigEndian(s[b..])
    requires x == BigEndian(s[b - 4..b])
    ensures Val(low + [x]) == BigEndian(s[b - 4..])
  {
    hide BigEndian, Val, Weight, Pow;
    assert s[b - 4..] == s[b - 4..b] + s[b..];
    BigEndianAppend(s[b - 4..b], s[b..]);
    ValSnoc(low, x);
    FourBytesPerLimb(i);
  }

  lemma {:induction false} LastGroup(s: seq<Byte>, rest: nat, i: nat, low: seq<Limb>, x: Limb)
    requires rest == |s| - 4 * i && |low| == i && Val(low) == BigEndian(s[rest..]) && x == BigEndian(s[..rest])
    ensures Val(low + [x]) == BigEndian(s)
  {
    hide BigEndian, Val, Weight, Pow;
    assert s == s[..rest] + s[rest..];
    BigEndianAppend(s[..rest], s[rest..]);
    ValSnoc(low, x);
    FourBytesPerLimb(i);
  }

  /** One to four bytes, least significant first, as the little-endian branch joins them. */
  function LimbOfLittle(s: seq<Byte>): (x: Limb)
    requires 1 <= |s| <= 4
    ensures x == LittleEndian(s)
  {
    var n := |s|;
    FewBytesLittle(s);
    (if n >= 4 then s[3] as int * 0x100_0000 else 0) + (if n >= 3 then s[2] as int * 0x1_0000 else 0)
    + (if n >= 2 then s[1] as int * 0x100 else 0) + s[0]
  }

  lemma {:induction false} FewBytesLittle(s: seq<Byte>)
    requires 1 <= |s| <= 4
    ensures LittleEndian(s) ==
      (if |s| >= 4 then s[3] as int * 0x100_0000 else 0) + (if |s| >= 3 then s[2] as int * 0x1_0000 else 0)
      + (if |s| >= 2 then s[1] as int * 0x100 else 0) + s[0]
    decreases |s|
  {
    if |s| == 1 {
      assert s[1..] == [];
    } else {
      FewBytesLittle(s[1..]);
    }
  }

  /** The little-endian constructor: trailing zero bytes are skipped, limbs are filled from the start. */
  method FromLittleEndian(val: seq<Byte>) returns (mag: seq<Limb>)
    ensures Normal(mag) && Val(mag) == LittleEndian(val)
  {
    var n := |val|;
    while n > 0 && val[n - 1] == 0
      invariant 0 <= n <= |val| && forall k :: n <= k < |val| ==> val[k] == 0
    {
      n := n - 1;
    }
    assert val == val[..n] + val[n..];
    LittleEndianAppend(val[..n], val[n..]);
    LittleEndianZeros(val[n..]);
    if n == 0 {
      assert val[..0] == [];
      return [];
    }
    mag := LimbsFromLittleEndian(val[..n]);
  }

  method LimbsFromLittleEndian(s: seq<Byte>) returns (mag: seq<Limb>)
    requires |s| > 0 && s[|s| - 1] != 0
    ensures Normal(mag) && Val(mag) == LittleEndian(s)
  {
    hide LittleEndian, Val, Weight;
    var intLength := (|s| + 3) / 4;
    var limbs := new Limb[intLength](_ => 0);
    var i := 0;
    EmptyMagnitude(limbs[..0], s[..0]);
    while i < intLength - 1
      invariant 0 <= i <= intLength - 1 && Val(limbs[..i]) == LittleEndian(s[..4 * i])
    {
      ghost var low := limbs[..i];
      limbs[i] := LimbOfLittle(s[4 * i..4 * i + 4]);
      assert limbs[..i + 1] == low + [limbs[i]];
      NextGroupLittle(s, 4 * i + 4, i, low, limbs[i]);
      i := i + 1;
    }
    ghost var low := limbs[..i];
    limbs[i] := LimbOfLittle(s[4 * i..]);
    assert limbs[..] == low + [limbs[i]];
    assert s[4 * i..|s|] == s[4 * i..] && s[..|s|] == s;
    NextGroupLittle(s, |s|, i, low, limbs[i]);
    TopByteCounts(s[4 * i..]);
    mag := limbs[..];
  }

  lemma {:induction false} NextGroupLittle(s: seq<Byte>, b: nat, i: nat, low: seq<Limb>, x: Limb)
    requires 4 * i < b <= |s| && |low| == i && Val(low) == LittleEndian(s[..4 * i]) && x == LittleEndian(s[4 * i..b])
    ensures Val(low + [x]) == LittleEndian(s[..b])
  {
    hide LittleEndian, Val, Weight, Pow;
    assert s[..b] == s[..4 * i] + s[4 * i..b];
    LittleEndianAppend(s[..4 * i], s[4 * i..b]);
    ValSnoc(low, x);
    FourBytesPerLimb(i);
  }

  lemma {:induction false} TopByteCounts(s: seq<Byte>)
    requires |s| > 0 && s[|s| - 1] != 0
    ensures LittleEndian(s) > 0
  {
    if |s| == 1 {
    } else {
      TopByteCounts(s[1..]);
    }
  }

  /** Bytes one way round and their reversal the other way round build the same limbs. */
  lemma {:induction false} SameLimbsEitherWay(val: seq<Byte>, big: seq<Limb>, little: seq<Limb>)
    requires Normal(big) && Normal(little)
    requires Val(big) == BigEndian(val) && Val(little) == LittleEndian(Reverse(val))
    ensures big == little
  {
    ReversedOrder(val);
    NormalUnique(big, little);
  }

  // ---------------------------------------------------------------- magnitude to bytes

  /** The four bytes of a limb, most significant first. */
  function BytesOf(x: Limb): (s: seq<Byte>)
    ensures |s| == 4 && BigEndian(s) == x
  {
    ByteParts(x);
    var s: seq<Byte> := [x / 0x100_0000, x / 0x1_0000 % 0x100, x / 0x100 % 0x100, x % 0x100];
    FewBytes(s);
    s
  }

  lemma {:induction false} ByteParts(x: Limb)
    ensures x / 0x100_0000 < 256
    ensures x == (x / 0x100_0000) * 0x100_0000 + (x / 0x1_0000 % 0x100) * 0x1_0000
              + (x / 0x100 % 0x100) * 0x100 + x % 0x100
  {
    var a := x / 0x100;
    var b := a / 0x100;
    assert x == a * 0x100 + x % 0x100;
    assert x / 0x1_0000 == b;
    assert x / 0x100_0000 == b / 0x100;
  }

  lemma {:induction false} BytePowers()
    ensures Pow(256, 0) == 1 && Pow(256, 1) == 256 && Pow(256, 2) == 0x1_0000 && Pow(256, 3) == 0x100_0000
  {
    PowAdd(256, 1, 1);
    PowAdd(256, 2, 1);
  }

  /** A limb of at most n bytes has zeros above them. */
  lemma {:induction false} LowBytes(x: Limb, n: nat)
    requires 1 <= n <= 4 && x < Pow(256, n) && Pow(256, n - 1) <= x
    ensures BigEndian(BytesOf(x)[4 - n..]) == x && BytesOf(x)[4 - n] != 0
  {
    BytePowers();
    hide Pow, BigEndian;
    FewBytes(BytesOf(x)[4 - n..]);
  }

  /** The byte count that the bit length asks for. */
  function ByteCount(bits: nat): nat { (bits + 7) / 8 }

  lemma {:induction false} TopLimbBytes(x: Limb)
    requires x > 0
    ensures var n := ByteCount(BitLen(x)); 1 <= n <= 4 && Pow(256, n - 1) <= x < Pow(256, n)
  {
    var b := BitLen(x);
    var n := ByteCount(b);
    BitLenBounds(x);
    TwoPowers();
    hide BitLen;
    if b > 32 { PowMonotone(2, 32, b - 1); }
    hide Pow;
    assert Pow(2, 8) == 256 by { SmallTwoPowers(); }
    PowMul(2, 8, n);
    PowMul(2, 8, n - 1);
    PowMonotone(2, 8 * (n - 1), b - 1);
    PowMonotone(2, b, 8 * n);
  }

  /** The shortest big-endian bytes of a magnitude; one zero byte for zero. */
  method ToBytes(mag: seq<Limb>, bitLength: nat) returns (buffer: array<Byte>)
    requires Normal(mag) && (mag == [] ==> bitLength == 0)
    requires mag != [] ==> bitLength == BitLen(mag[|mag| - 1]) + 32 * (|mag| - 1)
    ensures fresh(buffer) && buffer.Length > 0 && BigEndian(buffer[..]) == Val(mag)
    ensures mag == [] ==> buffer[..] == [0]
    ensures mag != [] ==> buffer[0] != 0
  {
    hide BigEndian, Val, Weight, BitLen, BytesOf;
    var bytesNum := ByteCount(bitLength);
    if bytesNum == 0 {
      buffer := new Byte[1](_ => 0);
      assert buffer[..] == [0];
      OneByte(0);
      if mag != [] { TopLimbBytes(mag[|mag| - 1]); }
      ValEmpty();
      return;
    }
    TopLimbBytes(mag[|mag| - 1]);
    buffer := new Byte[bytesNum](_ => 0);
    var i := 0;
    EmptyMagnitude(mag[..0], buffer[bytesNum..]);
    while i < |mag| - 1
      invariant 0 <= i <= |mag| - 1 && BigEndian(buffer[bytesNum - 4 * i..]) == Val(mag[..i])
    {
      ghost var tail := buffer[bytesNum - 4 * i..];
      StoreBytes(buffer, bytesNum - 4 * i - 4, BytesOf(mag[i]));
      MoreBytes(BytesOf(mag[i]), tail, mag, i);
      i := i + 1;
    }
    var rest := bytesNum - 4 * i;
    ghost var tail := buffer[rest..];
    LowBytes(mag[i], rest);
    StoreBytes(buffer, 0, BytesOf(mag[i])[4 - rest..]);
    assert buffer[0..] == buffer[..] && mag[..i + 1] == mag;
    MoreBytes(BytesOf(mag[i])[4 - rest..], tail, mag, i);
  }

  /** One limb's bytes, or the last few of them, are stored at `start`. */
  method StoreBytes(buffer: array<Byte>, start: nat, bytes: seq<Byte>)
    requires start + |bytes| <= buffer.Length && |bytes| <= 4
    modifies buffer
    ensures buffer[start..] == bytes + old(buffer[start + |bytes|..])
    ensures forall k :: 0 <= k < start ==> buffer[k] == old(buffer[k])
  {
    forall k | 0 <= k < |bytes| { buffer[start + k] := bytes[k]; }
  }

  lemma {:induction false} OneByte(x: Byte)
    ensures BigEndian([x]) == x
  {
    assert [x][..0] == [];
  }

  lemma {:induction false} MoreBytes(bytes: seq<Byte>, tail: seq<Byte>, mag: seq<Limb>, i: nat)
    requires i < |mag| && |tail| == 4 * i && BigEndian(tail) == Val(mag[..i]) && BigEndian(bytes) == mag[i]
    ensures BigEndian(bytes + tail) == Val(mag[..i + 1])
  {
    hide BigEndian, Val, Weight;
    BigEndianAppend(bytes, tail);
    FourBytesPerLimb(i);
    ValTake(mag, i);
  }

  /** The shortest big-endian bytes of a number, defined on the number itself. */
  function ShortestBytes(v: nat): (s: seq<Byte>)
    ensures |s| > 0
  {
    if v < 256 then [v] else ShortestBytes(v / 256) + [v % 256]
  }

  /** They are the only bytes of that value that start with a byte that is not zero. */
  lemma {:induction false} ShortestBytesUnique(s: seq<Byte>)
    requires |s| > 0 && (s[0] != 0 || s == [0])
    ensures s == ShortestBytes(BigEndian(s))
    decreases |s|
  {
    if |s| == 1 {
      assert s[..0] == [];
    } else {
      var t := s[..|s| - 1];
      ShortestBytesUnique(t);
      BigEndianLower(t);
      PowPositive(256, |t| - 1);
      assert BigEndian(s) == 256 * BigEndian(t) + s[|s| - 1];
      assert s == t + [s[|s| - 1]];
    }
  }

  lemma {:induction false} ShortestBytesValue(v: nat)
    ensures BigEndian(ShortestBytes(v)) == v
    ensures ShortestBytes(v)[0] != 0 || v == 0
  {
    if v < 256 {
      OneByte(v);
    } else {
      ShortestBytesValue(v / 256);
      var s := ShortestBytes(v / 256);
      assert (s + [v % 256])[..|s|] == s;
    }
  }
}
