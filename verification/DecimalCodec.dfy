/** Decimals in a binary stream: `WriteDecimal` and `ReadDecimal` (src/utility.cpp). */
module DecimalCodec {
  import opened Common
  import opened Words
  import opened Magnitude
  import opened MagnitudeBytes
  import opened BigIntegers
  import opened Decimals

  type Int32 = x: int | -0x8000_0000 <= x < 0x8000_0000

  /** What a stored decimal says. */
  datatype Stored = Stored(scale: int, sign: int, magnitude: nat)

  const TYPE_DECIMAL: Byte := 30

  // ---------------------------------------------------------------- the format

  /** Four bytes, least significant first, two's complement. */
  function Int32Bytes(x: int): (s: seq<Byte>)
    ensures |s| == 4
  {
    var w := Wrap32(x);
    ByteParts(w);
    [w % 0x100, w / 0x100 % 0x100, w / 0x1_0000 % 0x100, w / 0x100_0000]
  }

  function Int32At(s: seq<Byte>): Int32
    requires |s| == 4
  {
    var w := s[0] + s[1] as int * 0x100 + s[2] as int * 0x1_0000 + s[3] as int * 0x100_0000;
    if w < 0x8000_0000 then w else w - 0x1_0000_0000
  }

  lemma {:induction false} Int32RoundTrip(x: Int32)
    ensures Int32At(Int32Bytes(x)) == x && LittleEndian(Int32Bytes(x)) == Wrap32(x)
  {
    ByteParts(Wrap32(x));
    FewBytesLittle(Int32Bytes(x));
  }

  /** The sign goes into the top bit of the first byte, or into a byte of its own. */
  function SignedBytes(sign: int, v: nat): (s: seq<Byte>)
    ensures |s| > 0
  {
    var bytes, bit := ShortestBytes(v), if sign == -1 then 0x80 else 0;
    if bytes[0] >= 0x80 then [bit] + bytes else [bytes[0] + bit] + bytes[1..]
  }

  function Encode(d: Stored): seq<Byte> {
    var bytes := SignedBytes(d.sign, d.magnitude);
    [TYPE_DECIMAL] + Int32Bytes(d.scale) + Int32Bytes(|bytes|) + bytes
  }

  /** `scale & 0x7FFFFFFF`: the scale modulo 2^31. */
  function MaskScale(scale: Int32): nat {
    if scale < 0 then scale + 0x8000_0000 else scale
  }

  /** Reading fails when the stream is too short or the length is not positive. */
  function Decode(s: seq<Byte>): Option<(Stored, nat)> {
    if |s| < 9 then None
    else
      var scale, len := Int32At(s[1..5]), Int32At(s[5..9]);
      if len <= 0 || |s| < 9 + len then None
      else
        var m := s[9..9 + len];
        var v := BigEndian(if m[0] >= 0x80 then m[0 := m[0] - 0x80] else m);
        Some((Stored(MaskScale(scale), if v > 0 && m[0] >= 0x80 then -1 else 1, v), 9 + len))
  }

  // ---------------------------------------------------------------- round trip

  /** Taking the sign bit out again leaves the magnitude. */
  lemma {:induction false} SignBitOut(sign: int, v: nat)
    requires sign == 1 || sign == -1
    ensures
      var m := SignedBytes(sign, v);
      (m[0] >= 0x80 <==> sign == -1) && BigEndian(if m[0] >= 0x80 then m[0 := m[0] - 0x80] else m) == v
  {
    hide BigEndian, ShortestBytes;
    ShortestBytesValue(v);
    var bytes, m := ShortestBytes(v), SignedBytes(sign, v);
    var plain := if m[0] >= 0x80 then m[0 := m[0] - 0x80] else m;
    if bytes[0] >= 0x80 {
      assert plain == [0] + bytes;
      BigEndianAppend([0], bytes);
      OneByte(0);
    } else {
      assert plain == bytes;
    }
  }

  /**
   What is written is read back: the same magnitude and sign, a negative zero as zero, and the
   scale with its top bit cleared. The bytes that follow are left alone.
   */
  lemma {:induction false} RoundTrip(d: Stored, rest: seq<Byte>)
    requires d.sign == 1 || d.sign == -1
    requires -0x8000_0000 <= d.scale < 0x8000_0000 && |SignedBytes(d.sign, d.magnitude)| < 0x8000_0000
    ensures Decode(Encode(d) + rest)
         == Some((Stored(d.scale % 0x8000_0000, if d.magnitude == 0 then 1 else d.sign, d.magnitude), |Encode(d)|))
  {
    hide BigEndian, SignedBytes, Int32At, Int32Bytes;
    var bytes, s := SignedBytes(d.sign, d.magnitude), Encode(d) + rest;
    assert s[1..5] == Int32Bytes(d.scale);
    assert s[5..9] == Int32Bytes(|bytes|);
    Int32RoundTrip(d.scale);
    Int32RoundTrip(|bytes|);
    assert s[9..9 + |bytes|] == bytes;
    SignBitOut(d.sign, d.magnitude);
  }

  /** So decimals come back unchanged exactly when the scale is not negative and a zero is positive. */
  lemma {:induction false} RoundTripExact(d: Stored, rest: seq<Byte>)
    requires d.sign == 1 || d.sign == -1
    requires -0x8000_0000 <= d.scale < 0x8000_0000 && |SignedBytes(d.sign, d.magnitude)| < 0x8000_0000
    ensures Decode(Encode(d) + rest) == Some((d, |Encode(d)|)) <==> d.scale >= 0 && !(d.magnitude == 0 && d.sign == -1)
  {
    hide Decode, Encode, SignedBytes;
    RoundTrip(d, rest);
    assert d.scale % 0x8000_0000 == d.scale <==> d.scale >= 0;
  }

  // ---------------------------------------------------------------- the streams

  class OutputStream {
    var data: seq<Byte>

    method WriteInt8(x: Byte)
      modifies this
      ensures data == old(data) + [x]
    {
      data := data + [x];
    }

    method WriteInt32(x: int)
      modifies this
      ensures data == old(data) + Int32Bytes(x)
    {
      data := data + Int32Bytes(x);
    }

    method WriteInt8Array(a: array<Byte>)
      modifies this
      ensures data == old(data) + a[..]
    {
      data := data + a[..];
    }
  }

  class InputStream {
    const data: seq<Byte>
    var pos: nat

    ghost predicate Valid()
      reads this
    {
      pos <= |data|
    }

    /** The next bytes, or nothing and no movement when fewer are left. */
    method Read(count: int) returns (r: Option<seq<Byte>>)
      requires Valid() && count >= 0
      modifies this
      ensures Valid()
      ensures r.Some? <==> old(pos) + count <= |data|
      ensures r.Some? ==> pos == old(pos) + count && r.value == data[old(pos)..pos]
      ensures r.None? ==> pos == old(pos)
    {
      if |data| - pos < count { return None; }
      r := Some(data[pos..pos + count]);
      pos := pos + count;
    }
  }

  ghost function StoredOf(d: Decimal): Stored
    reads d, d.magnitude
  {
    Stored(d.scale, d.magnitude.sign, Val(d.magnitude.mag))
  }

  /** A type, a scale, a length and the bytes, appended one after the other. */
  lemma {:induction false} Layout(before: seq<Byte>, d: Stored)
    ensures
      var bytes := SignedBytes(d.sign, d.magnitude);
      before + [TYPE_DECIMAL] + Int32Bytes(d.scale) + Int32Bytes(|bytes|) + bytes == before + Encode(d)
  {
    hide SignedBytes, Int32Bytes;
  }

  /** The length and the bytes of a number with its sign, the extra byte included where it is needed. */
  method WriteSigned(writer: OutputStream, magnitude: array<Byte>, sign: int, ghost v: nat)
    requires magnitude[..] == ShortestBytes(v)
    modifies writer, magnitude
    ensures var bytes := SignedBytes(sign, v);
      writer.data == old(writer.data) + Int32Bytes(|bytes|) + bytes
  {
    hide Int32Bytes, ShortestBytes;
    ghost var head, bytes := writer.data, magnitude[..];
    var addBit: Byte := if sign == -1 then 0x80 else 0;
    if magnitude[0] >= 0x80 {
      writer.WriteInt32(magnitude.Length + 1);
      writer.WriteInt8(addBit);
      ExtraByte(head, addBit, bytes);
    } else {
      writer.WriteInt32(magnitude.Length);
      magnitude[0] := magnitude[0] + addBit;
      assert magnitude[..] == [bytes[0] + addBit] + bytes[1..];
    }
    writer.WriteInt8Array(magnitude);
  }

  lemma {:induction false} ExtraByte(head: seq<Byte>, bit: Byte, bytes: seq<Byte>)
    ensures head + Int32Bytes(|bytes| + 1) + [bit] + bytes == head + Int32Bytes(|[bit] + bytes|) + ([bit] + bytes)
  {
    hide Int32Bytes;
  }

  method WriteDecimal(writer: OutputStream, decimal: Decimal)
    requires decimal.Valid()
    modifies writer
    ensures writer.data == old(writer.data) + Encode(StoredOf(decimal))
  {
    hide Val, Int32Bytes, ShortestBytes, SignedBytes, Encode;
    ghost var d := StoredOf(decimal);
    Layout(writer.data, d);
    writer.WriteInt8(TYPE_DECIMAL);
    writer.WriteInt32(decimal.scale);
    var magnitude := decimal.magnitude.MagnitudeToBytes();
    WriteSigned(writer, magnitude, decimal.magnitude.sign, d.magnitude);
  }

  method ReadDecimal(reader: InputStream) returns (r: Option<Decimal>)
    requires reader.Valid()
    modifies reader
    ensures reader.Valid() && (r.Some? <==> Decode(reader.data[old(reader.pos)..]).Some?)
    ensures r.Some? ==> fresh(r.value) && fresh(r.value.magnitude) && r.value.Valid()
    ensures r.Some? ==>
      var d := Decode(reader.data[old(reader.pos)..]).value;
      StoredOf(r.value) == d.0 && reader.pos == old(reader.pos) + d.1
  {
    hide Val;
    ghost var p, s := reader.pos, reader.data[reader.pos..];
    var hdr := reader.Read(1);
    if hdr.None? { return None; }
    var scaleBytes := reader.Read(4);
    if scaleBytes.None? { return None; }
    assert scaleBytes.value == s[1..5];
    var lenBytes := reader.Read(4);
    if lenBytes.None? { return None; }
    assert lenBytes.value == s[5..9];
    var len := Int32At(lenBytes.value);
    if len <= 0 { return None; }
    var bytes := reader.Read(len);
    if bytes.None? { return None; }
    var mag := bytes.value;
    assert mag == s[9..9 + len];
    var sign := 1;
    if mag[0] >= 0x80 { mag, sign := mag[0 := mag[0] - 0x80], -1; }
    var magnitude := new BigInteger.FromBytes(mag, sign, true);
    var res := new Decimal.FromBigInteger(magnitude, MaskScale(Int32At(scaleBytes.value)));
    NormalZero(magnitude.mag);
    r := Some(res);
  }
}
