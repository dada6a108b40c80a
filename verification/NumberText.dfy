/**
 Numbers as text: the stream operators of `BigInteger` and `Decimal`
 (include/documentdb/odbc/common/big_integer.h and decimal.h). A stream of characters is a string
 and a position in it.
 */
module NumberText {
  import opened Words
  import opened Magnitude
  import opened LongDivision
  import opened Bits
  import opened BigIntegers
  import opened Decimals
  import opened TextTools

  // ---------------------------------------------------------------- printing integers

  /** The number whose base 10^19 digits are s, least significant first, with more above them. */
  function Total(s: seq<Word64>, above: nat): nat {
    if |s| == 0 then above else s[0] + 10_000_000_000_000_000_000 * Total(s[1..], above)
  }

  predicate Chunks(s: seq<Word64>) {
    forall i :: 0 <= i < |s| ==> s[i] < 10_000_000_000_000_000_000
  }

  lemma {:induction false} TotalSnoc(s: seq<Word64>, x: Word64, above: nat)
    ensures Total(s + [x], above) == Total(s, x + 10_000_000_000_000_000_000 * above)
  {
    if |s| == 0 {
      assert ([x] + s)[1..] == s && s + [x] == [x];
    } else {
      assert (s + [x])[1..] == s[1..] + [x];
      TotalSnoc(s[1..], x, above);
    }
  }

  lemma {:induction false} TotalPositive(s: seq<Word64>)
    requires |s| > 0 && s[|s| - 1] > 0
    ensures Total(s, 0) > 0
  {
    if |s| == 1 {
    } else {
      TotalPositive(s[1..]);
    }
  }

  lemma {:induction false} ChunkDigits() returns (k: nat)
    ensures k == 19 && Pow(10, k) == 10_000_000_000_000_000_000
  {
    k := 19;
    TenPowerTable(k);
  }

  lemma {:induction false} WordBack(x: Word64)
    ensures Wrap64(x) == x && Wrap64(Signed64(x)) == x
  {}

  /** The divisor of the printer has two limbs, so that even as written every division by it is right. */
  lemma {:induction false} ChunkDivision(u: seq<Limb>, v: seq<Limb>, reading: Reading)
    requires Normal(u) && Normal(v) && Val(v) == 10_000_000_000_000_000_000
    ensures v != [] && DividesRight(u, v, reading)
  {
    hide Val, Pow, Limbs, DividesRight;
    var d := ChunkDigits();
    DroppingIsRight(u, d, reading);
    ValEmpty();
    NormalUnique(v, Limbs(Pow(10, d)));
  }

  /** Signs aside, quotient and remainder are those of the magnitudes. */
  lemma {:induction false} UnsignedDivision(s: int, a: nat, d: nat)
    requires (s == 1 || s == -1) && d > 0
    ensures Abs(Quotient(s * a, d)) == a / d && Abs(Remainder(s * a, d)) == a % d
    ensures s == 1 ==> Quotient(s * a, d) == a / d && Remainder(s * a, d) == a % d
  {
    hide Quotient, Remainder;
    SignedQuotient(s, a, 1, d);
    if a < d { DivUnique(a, d, 0, a); }
  }

  lemma {:induction false} SignDropped(s: int, v: nat)
    requires s == 1 || s == -1
    ensures Abs(s * v) == v
  {}

  /** Takes the lowest base 10^19 digit off a number. */
  method TakeChunk(left: BigInteger, tens: BigInteger, res: BigInteger, reading: Reading) returns (word: Word64)
    requires left.Valid() && left.sign == 1 && tens.Valid() && tens.sign == 1
    requires left != res && left != tens && res != tens && Val(tens.mag) == 10_000_000_000_000_000_000
    modifies left, res
    ensures left.Valid() && left.sign == 1 && Val(left.mag) == old(Val(left.mag)) / 10_000_000_000_000_000_000
    ensures word == old(Val(left.mag)) % 10_000_000_000_000_000_000
  {
    hide Val, Quotient, Remainder, DividesRight, TakesLongBranch, Wrap64, Signed64;
    ChunkDivision(left.mag, tens.mag, reading);
    UnsignedDivision(1, Val(left.mag), 10_000_000_000_000_000_000);
    var status := left.Divide(tens, left, res, reading);
    left.NonZero();
    res.NonZero();
    var signed := res.ToInt64();
    WordBack(Val(res.mag));
    word := Wrap64(signed);
  }

  /** The first division, which also drops the signs. */
  method FirstChunk(val: BigInteger, tens: BigInteger, left: BigInteger, res: BigInteger, reading: Reading)
    returns (word: Word64)
    requires val.Valid() && tens.Valid() && tens.sign == 1 && Val(tens.mag) == 10_000_000_000_000_000_000
    requires left != res && val != left && val != res && tens != left && tens != res
    modifies left, res
    ensures left.Valid() && left.sign == 1 && Val(left.mag) == Val(val.mag) / 10_000_000_000_000_000_000
    ensures word == Val(val.mag) % 10_000_000_000_000_000_000
  {
    hide Val, Quotient, Remainder, DividesRight, TakesLongBranch, Abs, Wrap64, Signed64;
    ChunkDivision(val.mag, tens.mag, reading);
    UnsignedDivision(val.sign, Val(val.mag), 10_000_000_000_000_000_000);
    var status := val.Divide(tens, left, res, reading);
    SignDropped(left.sign, Val(left.mag));
    SignDropped(res.sign, Val(res.mag));
    assert Val(left.mag) == Val(val.mag) / 10_000_000_000_000_000_000;
    assert Val(res.mag) == Val(val.mag) % 10_000_000_000_000_000_000;
    if res.sign < 0 { res.sign := -res.sign; }
    if left.sign < 0 { left.sign := -left.sign; }
    var signed := res.ToInt64();
    WordBack(Val(res.mag));
    word := Wrap64(signed);
  }

  /** The base 10^19 digits of a number that is not zero. */
  method SplitInteger(val: BigInteger, reading: Reading) returns (vals: seq<Word64>)
    requires val.Valid() && val.mag != []
    ensures |vals| > 0 && Chunks(vals) && vals[|vals| - 1] > 0 && Total(vals, 0) == Val(val.mag)
  {
    hide Val, Total;
    var tens := new BigInteger();
    var res := new BigInteger();
    var left := new BigInteger();
    tens.AssignUint64(10_000_000_000_000_000_000);
    var word := FirstChunk(val, tens, left, res, reading);
    vals := [word];
    OneChunk(word, Val(left.mag));
    NormalZero(val.mag);
    NormalZero(left.mag);
    while !left.IsZero()
      invariant fresh(res) && fresh(left)
      invariant tens.Valid() && tens.sign == 1 && Val(tens.mag) == 10_000_000_000_000_000_000
      invariant left.Valid() && left.sign == 1
      invariant |vals| > 0 && Chunks(vals) && Total(vals, Val(left.mag)) == Val(val.mag)
      invariant left.mag == [] ==> vals[|vals| - 1] > 0
      invariant Val(left.mag) == 0 <==> left.mag == []
      decreases Val(left.mag)
    {
      word := TakeChunk(left, tens, res, reading);
      NormalZero(left.mag);
      TotalSnoc(vals, word, Val(left.mag));
      vals := vals + [word];
    }
  }

  lemma {:induction false} OneChunk(x: Word64, above: nat)
    ensures Total([x], above) == x + 10_000_000_000_000_000_000 * above
  {
    assert Total([x][1..], above) == above;
  }

  /** Printing: a sign and the decimal digits, without leading zeros, of every value. */
  method PrintInteger(val: BigInteger, reading: Reading) returns (text: string)
    requires val.Valid()
    ensures text == Show(val.Value())
  {
    hide Val, Show, ShowNat, Total, Filled, Chunks;
    NormalZero(val.mag);
    if val.IsZero() {
      ShowZero();
      return "0";
    }
    text := if val.sign < 0 then "-" else "";
    ghost var sign := text;
    ShowSigned(val.sign, Val(val.mag));
    var vals := SplitInteger(val, reading);
    var i := |vals| - 1;
    TopChunk(vals);
    text := text + ShowNat(vals[i]);
    while i > 0
      invariant 0 <= i < |vals| && text == sign + ShowNat(Total(vals[i..], 0))
    {
      i := i - 1;
      NextChunk(vals, i);
      text := text + Filled(vals[i], 19);
    }
    assert vals[0..] == vals;
  }

  lemma {:induction false} ShowZero()
    ensures Show(0) == "0"
  {}

  lemma {:induction false} ShowSigned(s: int, v: nat)
    requires (s == 1 || s == -1) && v > 0
    ensures Show(s * v) == (if s < 0 then "-" else "") + ShowNat(v)
  {
    hide ShowNat;
  }

  lemma {:induction false} TopChunk(vals: seq<Word64>)
    requires |vals| > 0
    ensures Total(vals[|vals| - 1..], 0) == vals[|vals| - 1]
  {
    assert vals[|vals| - 1..] == [vals[|vals| - 1]];
    OneChunk(vals[|vals| - 1], 0);
  }

  /** What is printed for the chunks above i, and then the chunk at i in nineteen digits. */
  lemma {:induction false} NextChunk(vals: seq<Word64>, i: nat)
    requires i + 1 < |vals| && Chunks(vals) && vals[|vals| - 1] > 0
    ensures ShowNat(Total(vals[i..], 0)) == ShowNat(Total(vals[i + 1..], 0)) + Filled(vals[i], 19)
  {
    hide Pow, ShowNat, Filled;
    var k := ChunkDigits();
    TotalPositive(vals[i + 1..]);
    assert vals[i..][1..] == vals[i + 1..];
    ShowSplit(Total(vals[i..], 0), Total(vals[i + 1..], 0), vals[i], k);
  }

  // ---------------------------------------------------------------- reading integers

  /** Where white space from i on ends. */
  function SkipSpaces(s: string, i: nat): (e: nat)
    requires i <= |s|
    ensures i <= e <= |s| && (forall k :: i <= k < e ==> IsSpace(s[k])) && (e < |s| ==> !IsSpace(s[e]))
    decreases |s| - i
  {
    if i < |s| && IsSpace(s[i]) then SkipSpaces(s, i + 1) else i
  }

  /** Where the digits from i on end. */
  function DigitsEnd(s: string, i: nat): (e: nat)
    requires i <= |s|
    ensures i <= e <= |s| && AllDigits(s[i..e]) && (e < |s| ==> !IsDigit(s[e]))
    decreases |s| - i
  {
    if i < |s| && IsDigit(s[i]) then
      var e := DigitsEnd(s, i + 1);
      assert s[i..e] == [s[i]] + s[i + 1..e];
      e
    else i
  }

  /** The only such end. */
  lemma {:induction false} DigitsEndIs(s: string, i: nat, e: nat)
    requires i <= e <= |s| && AllDigits(s[i..e]) && (e < |s| ==> !IsDigit(s[e]))
    ensures DigitsEnd(s, i) == e
  {
    var d := DigitsEnd(s, i);
    assert forall k :: i <= k < e ==> s[k] == s[i..e][k - i];
    assert forall k :: i <= k < d ==> s[k] == s[i..d][k - i];
  }

  predicate IsSign(c: char) { c == '-' || c == '+' }

  /** Where the number starts, behind white space and a sign. */
  function NumberStart(s: string, start: nat): (q: nat)
    requires start <= |s|
    ensures start <= q <= |s|
  {
    var p := SkipSpaces(s, start);
    if p < |s| && IsSign(s[p]) then p + 1 else p
  }

  function SignOf(s: string, start: nat): int
    requires start <= |s|
  {
    var p := SkipSpaces(s, start);
    if p < |s| && s[p] == '-' then -1 else 1
  }

  /** The integer that the text from start on begins with, and where it ends. */
  function ScanInteger(s: string, start: nat): (int, nat)
    requires start <= |s|
  {
    var q := NumberStart(s, start);
    var e := DigitsEnd(s, q);
    (SignOf(s, start) * DecimalValue(s[q..e]), e)
  }

  /** The pending digits join the number that is being read. */
  method Flush(val: BigInteger, part: Word64, partDigits: nat)
    requires val.Valid() && val.sign == 1
    modifies val
    ensures val.Valid() && val.sign == 1 && Val(val.mag) == old(Val(val.mag)) * Pow(10, partDigits) + part
  {
    hide Val, Pow;
    var pow := new BigInteger();
    BigInteger.GetPowerOfTen(partDigits, pow);
    val.Multiply(pow, val);
    val.Add(part);
  }

  /** One more digit: 64 bits hold the pending digits and it. */
  method TakeDigit(part: Word64, c: char) returns (part': Word64)
    requires part < 1_000_000_000_000_000_000 && IsDigit(c)
    ensures part' == 10 * part + (c as int - '0' as int)
  {
    part' := Wrap64(part * 10 + (c as int - '0' as int));
  }

  lemma {:induction false} DigitJoins(digits: string, c: char, v: nat, n: nat, part: nat)
    requires AllDigits(digits) && IsDigit(c) && v * Pow(10, n) + part == DecimalValue(digits)
    ensures AllDigits(digits + [c])
    ensures v * Pow(10, n + 1) + (10 * part + (c as int - '0' as int)) == DecimalValue(digits + [c])
  {
    assert (digits + [c])[..|digits|] == digits;
    MulAssoc(v, 10, Pow(10, n));
    MulAssoc(10, v, Pow(10, n));
  }

  lemma {:induction false} NoDigits()
    ensures DecimalValue("") == 0
  {}

  lemma {:induction false} PowOne(v: nat)
    ensures v * Pow(10, 0) == v
  {}

  /** Reading: the digits are taken up in parts of at most 64 bits. Text without a number gives zero. */
  method ReadInteger(text: string, start: nat, val: BigInteger) returns (end: nat)
    requires start <= |text|
    modifies val
    ensures val.Valid() && (val.Value(), end) == ScanInteger(text, start) && (val.sign == -1 <==> val.Value() < 0)
  {
    hide Val, Pow, DecimalValue;
    ghost var q := NumberStart(text, start);
    NoDigits();
    var i := SkipSpaces(text, start);
    val.AssignInt64(0);
    val.NonZero();
    var part: Word64, partDigits, sign := 0, 0, 1;
    if i < |text| && IsSign(text[i]) {
      if text[i] == '-' { sign := -1; }
      i := i + 1;
    }
    PowOne(Val(val.mag));
    assert text[q..i] == "" && sign == SignOf(text, start);
    while i < |text| && IsDigit(text[i])
      invariant q <= i <= |text| && AllDigits(text[q..i]) && val.Valid() && val.sign == 1
      invariant part < 1_000_000_000_000_000_000 && (partDigits == 0 ==> part == 0)
      invariant Val(val.mag) * Pow(10, partDigits) + part == DecimalValue(text[q..i])
    {
      DigitJoins(text[q..i], text[i], Val(val.mag), partDigits, part);
      assert text[q..i + 1] == text[q..i] + [text[i]];
      part := TakeDigit(part, text[i]);
      partDigits := partDigits + 1;
      if part >= 1_000_000_000_000_000_000 {
        Flush(val, part, partDigits);
        part, partDigits := 0, 0;
        PowOne(Val(val.mag));
      }
      i := i + 1;
    }
    if partDigits > 0 { Flush(val, part, partDigits); } else { PowOne(Val(val.mag)); }
    DigitsEndIs(text, q, i);
    val.NonZero();
    if sign < 0 { val.Negate(); }
    end := i;
  }

  /** What a sign in front of digits means; there may be none. */
  function Signed(sign: string, v: nat): int { if sign == "-" then -(v as int) else v }

  /** White space and a sign are passed over before anything that is neither. */
  lemma {:induction false} NumberHead(spaces: string, sign: string, tail: string)
    requires AllSpaces(spaces) && (sign == "" || sign == "+" || sign == "-")
    requires tail != "" && !IsSpace(tail[0]) && tail[0] !in "+-"
    ensures var s := spaces + sign + tail;
      NumberStart(s, 0) == |spaces + sign| && SignOf(s, 0) == (if sign == "-" then -1 else 1)
  {
    var s := spaces + sign + tail;
    assert s[|spaces|] == (sign + tail)[0];
    SkipSpacesIs(s, 0, |spaces|);
  }

  /** The digits behind white space and either sign or none are read, up to what is not a digit. */
  lemma {:induction false} IntegerText(spaces: string, sign: string, digits: string, rest: string)
    requires AllSpaces(spaces) && (sign == "" || sign == "+" || sign == "-")
    requires digits != "" && AllDigits(digits) && (rest != "" ==> !IsDigit(rest[0]))
    ensures ScanInteger(spaces + sign + digits + rest, 0)
         == (Signed(sign, DecimalValue(digits)), |spaces + sign + digits|)
  {
    hide DecimalValue, NumberStart, SignOf, DigitsEnd;
    var s := spaces + sign + digits + rest;
    var q, e := |spaces + sign|, |spaces + sign + digits|;
    assert s[q..e] == digits;
    assert s == spaces + sign + (digits + rest);
    NumberHead(spaces, sign, digits + rest);
    DigitsEndIs(s, q, e);
  }

  /** Text that does not start with a number is zero, and is not touched but for white space and a sign. */
  lemma {:induction false} NoIntegerText(spaces: string, sign: string, rest: string)
    requires AllSpaces(spaces) && (sign == "" || sign == "+" || sign == "-")
    requires rest != "" ==> !IsDigit(rest[0]) && (sign == "" ==> !IsSpace(rest[0]) && rest[0] !in "+-")
    ensures ScanInteger(spaces + sign + rest, 0) == (0, |spaces + sign|)
  {
    var s := spaces + sign + rest;
    var q := |spaces + sign|;
    if sign + rest != "" { assert s[|spaces|] == (sign + rest)[0]; }
    SkipSpacesIs(s, 0, |spaces|);
    assert s[q..q] == "";
    DigitsEndIs(s, q, q);
  }

  /** Reading undoes printing for every integer, behind white space and before anything but a digit. */
  lemma {:induction false} IntegerRoundTrip(spaces: string, n: int, rest: string)
    requires AllSpaces(spaces) && (rest != "" ==> !IsDigit(rest[0]))
    ensures ScanInteger(spaces + Show(n) + rest, 0) == (n, |spaces + Show(n)|)
  {
    hide ShowNat, DecimalValue, ScanInteger;
    var sign, digits := if n < 0 then "-" else "", ShowNat(Abs(n));
    IntegerText(spaces, sign, digits, rest);
    assert spaces + sign + digits == spaces + Show(n);
    ReadShown(Abs(n));
  }

  lemma {:induction false} SkipSpacesIs(s: string, i: nat, p: nat)
    requires i <= p <= |s| && (forall k :: i <= k < p ==> IsSpace(s[k])) && (p < |s| ==> !IsSpace(s[p]))
    ensures SkipSpaces(s, i) == p
  {}

  // ---------------------------------------------------------------- printing decimals

  /** How much of s is left without the zeros at its end. */
  function Significant(s: string): (k: nat)
    ensures k <= |s| && (k > 0 ==> s[k - 1] != '0') && forall i :: k <= i < |s| ==> s[i] == '0'
  {
    if |s| > 0 && s[|s| - 1] == '0' then Significant(s[..|s| - 1]) else |s|
  }

  function Minus(u: int): string { if u < 0 then "-" else "" }

  /** The digits with a point before the last `scale` of them, without the zeros behind the point. */
  function Pointed(digits: string, scale: nat): string {
    var k, dot := Significant(digits), |digits| - scale;
    if dot <= 0 then "0." + Zeros(-dot) + digits[..k]
    else digits[..dot] + if k > dot then "." + digits[dot..k] else ""
  }

  /** The text of a decimal. */
  function DecimalText(u: int, scale: int): string {
    if u == 0 then "0"
    else if scale <= 0 then Show(u) + Zeros(-scale)
    else Minus(u) + Pointed(ShowNat(Abs(u)), scale)
  }

  method AppendZeros(text: string, n: nat) returns (r: string)
    ensures r == text + Zeros(n)
  {
    r := text;
    var i := 0;
    while i < n
      invariant 0 <= i <= n && r == text + Zeros(i)
    {
      assert Zeros(i + 1) == Zeros(i) + "0";
      r := r + "0";
      i := i + 1;
    }
  }

  /** The last character that is not a zero. */
  method LastNonZero(s: string) returns (last: int)
    ensures -1 <= last < |s| && last + 1 == Significant(s)
  {
    hide Significant;
    last := |s| - 1;
    while last >= 0 && s[last] == '0'
      invariant -1 <= last < |s| && forall i :: last < i < |s| ==> s[i] == '0'
    {
      last := last - 1;
    }
    SignificantIs(s, last + 1);
  }

  lemma {:induction false} SignificantIs(s: string, k: nat)
    requires k <= |s| && (k > 0 ==> s[k - 1] != '0') && forall i :: k <= i < |s| ==> s[i] == '0'
    ensures Significant(s) == k
  {}

  /** The digits behind the sign, with the point. */
  method PrintPointed(digits: string, scale: nat) returns (text: string)
    ensures text == Pointed(digits, scale)
  {
    hide Significant, Zeros;
    var lastNonZero := LastNonZero(digits);
    var dotPos := |digits| - scale;
    if dotPos <= 0 {
      text := AppendZeros("0.", -dotPos);
      text := text + digits[..lastNonZero + 1];
    } else {
      text := digits[..dotPos];
      var afterDot := lastNonZero - dotPos + 1;
      text := text + if afterDot > 0 then "." + digits[dotPos..dotPos + afterDot] else "";
    }
  }

  /** Printing a decimal, whatever its scale. */
  method PrintDecimal(val: Decimal, reading: Reading) returns (text: string)
    requires val.Valid()
    ensures text == DecimalText(val.Unscaled(), val.scale)
  {
    hide Val, ShowNat, Pointed;
    val.magnitude.NonZero();
    if val.IsZero() { return "0"; }
    var magStr := PrintInteger(val.magnitude, reading);
    if val.scale <= 0 {
      text := AppendZeros(magStr, -val.scale);
      return;
    }
    var magBegin := 0;
    text := "";
    if magStr[magBegin] == '-' { text, magBegin := "-", 1; }
    assert magStr[magBegin..] == ShowNat(Abs(val.Unscaled()));
    var pointed := PrintPointed(magStr[magBegin..], val.scale);
    text := text + pointed;
  }

  // ---------------------------------------------------------------- reading decimals

  predicate IsExponent(c: char) { c == 'e' || c == 'E' }

  /** The unscaled integer and the scale that the text from start on begins with, and where its digits end. */
  function ScanDecimal(s: string, start: nat, exponent: int): (int, int, nat)
    requires start <= |s|
  {
    var q := NumberStart(s, start);
    var e := DigitsEnd(s, q);
    var end := if e < |s| && s[e] == '.' then DigitsEnd(s, e + 1) else e;
    var fraction := if end == e then "" else s[e + 1..end];
    var digits := s[q..e] + fraction;
    (SignOf(s, start) * DecimalValue(digits),
     |fraction| - if end < |s| && IsExponent(s[end]) then exponent else 0,
     end)
  }

  /** The digits between q and i, without the point. */
  function Digits(s: string, q: nat, i: nat, dot: int): string
    requires q <= i <= |s| && (dot < 0 || q <= dot < i)
  {
    if dot < 0 then s[q..i] else s[q..dot] + s[dot + 1..i]
  }

  /** How far the reader has come: digits up to i, a point at `dot` or none yet, and the number so far. */
  ghost predicate Taken(s: string, q: nat, i: nat, dot: int, scale: int, v: nat, n: nat, part: nat) {
    && q <= i <= |s| && -1 <= dot < i && (dot >= 0 ==> q <= dot && s[dot] == '.')
    && AllDigits(Digits(s, q, i, dot))
    && scale == (if dot < 0 then -1 else i - dot)
    && v * Pow(10, n) + part == DecimalValue(Digits(s, q, i, dot))
  }

  lemma {:induction false} TakenDigit(s: string, q: nat, i: nat, dot: int, scale: int, v: nat, n: nat, part: nat)
    requires Taken(s, q, i, dot, scale, v, n, part) && i < |s| && IsDigit(s[i])
    ensures Taken(s, q, i + 1, dot, if scale < 0 then scale else scale + 1, v, n + 1,
                  10 * part + (s[i] as int - '0' as int))
  {
    hide Pow, DecimalValue;
    DigitJoins(Digits(s, q, i, dot), s[i], v, n, part);
    assert Digits(s, q, i + 1, dot) == Digits(s, q, i, dot) + [s[i]];
  }

  lemma {:induction false} TakenPoint(s: string, q: nat, i: nat, dot: int, scale: int, v: nat, n: nat, part: nat)
    requires Taken(s, q, i, dot, scale, v, n, part) && i < |s| && s[i] == '.' && scale < 0
    ensures Taken(s, q, i + 1, i, 1, v, n, part)
  {
    hide Pow, DecimalValue;
    assert s[i + 1..i + 1] == "";
    assert Digits(s, q, i + 1, i) == s[q..i];
  }

  lemma {:induction false} TakenFlush(s: string, q: nat, i: nat, dot: int, scale: int, v: nat, n: nat, part: nat,
                                      v': nat)
    requires Taken(s, q, i, dot, scale, v, n, part) && v' == v * Pow(10, n) + part
    ensures Taken(s, q, i, dot, scale, v', 0, 0)
  {
    hide DecimalValue;
    PowOne(v');
  }

  lemma {:induction false} TakenNothing(s: string, start: nat)
    requires start <= |s|
    ensures Taken(s, NumberStart(s, start), NumberStart(s, start), -1, -1, 0, 0, 0)
  {
    var q := NumberStart(s, start);
    assert s[q..q] == "";
  }

  /** At the end of the digits, what has been taken is what the text says. */
  lemma {:induction false} TakenAll(s: string, start: nat, exponent: int, i: nat, dot: int, scale: int, v: nat)
    requires start <= |s| && Taken(s, NumberStart(s, start), i, dot, scale, v, 0, 0)
    requires i < |s| ==> !IsDigit(s[i]) && !(s[i] == '.' && scale < 0)
    ensures ScanDecimal(s, start, exponent)
         == (SignOf(s, start) * v,
             (if scale < 0 then 0 else scale - 1) - (if i < |s| && IsExponent(s[i]) then exponent else 0),
             i)
  {
    hide DecimalValue, SignOf, NumberStart, DigitsEnd;
    PowOne(v);
    var q := NumberStart(s, start);
    if dot < 0 {
      DigitsEndIs(s, q, i);
      assert s[q..i] + "" == s[q..i];
    } else {
      DigitsInParts(s[q..dot], s[dot + 1..i]);
      DigitsEndIs(s, q, dot);
      DigitsEndIs(s, dot + 1, i);
    }
  }

  lemma {:induction false} DigitsInParts(a: string, b: string)
    requires AllDigits(a + b)
    ensures AllDigits(a) && AllDigits(b)
  {
    assert forall i :: 0 <= i < |a| ==> a[i] == (a + b)[i];
    assert forall i :: 0 <= i < |b| ==> b[i] == (a + b)[|a| + i];
  }

  /** Reading a decimal. The exponent is what the stream reads as an integer behind an 'e'. */
  method ReadDecimal(text: string, start: nat, val: Decimal, exponent: int) returns (end: nat)
    requires start <= |text|
    modifies val, val.magnitude
    ensures val.Valid() && (val.Unscaled(), val.scale, end) == ScanDecimal(text, start, exponent)
  {
    hide Val, Pow, Taken, ScanDecimal;
    ghost var q, dot := NumberStart(text, start), -1;
    TakenNothing(text, start);
    var i := SkipSpaces(text, start);
    var mag := val.magnitude;
    mag.AssignInt64(0);
    mag.NonZero();
    var part: Word64, partDigits, scale, sign := 0, 0, -1, 1;
    if i < |text| && IsSign(text[i]) {
      if text[i] == '-' { sign := -1; }
      i := i + 1;
    }
    assert sign == SignOf(text, start);
    while i < |text|
      invariant q <= i <= |text| && mag.Valid() && mag.sign == 1
      invariant part < 1_000_000_000_000_000_000 && (partDigits == 0 ==> part == 0)
      invariant Taken(text, q, i, dot, scale, Val(mag.mag), partDigits, part)
    {
      if IsDigit(text[i]) {
        TakenDigit(text, q, i, dot, scale, Val(mag.mag), partDigits, part);
        part := TakeDigit(part, text[i]);
        partDigits := partDigits + 1;
      } else if text[i] == '.' && scale < 0 {
        TakenPoint(text, q, i, dot, scale, Val(mag.mag), partDigits, part);
        scale := 0;
        dot := i;
      } else {
        break;
      }
      i := i + 1;
      ghost var v := Val(mag.mag);
      ghost var next := if scale >= 0 then scale + 1 else scale;
      if part >= 1_000_000_000_000_000_000 {
        Flush(mag, part, partDigits);
        TakenFlush(text, q, i, dot, next, v, partDigits, part, Val(mag.mag));
        part, partDigits := 0, 0;
      }
      if scale >= 0 { scale := scale + 1; }
    }
    ghost var v := Val(mag.mag);
    if partDigits > 0 {
      Flush(mag, part, partDigits);
      TakenFlush(text, q, i, dot, scale, v, partDigits, part, Val(mag.mag));
    }
    TakenAll(text, start, exponent, i, dot, scale, Val(mag.mag));
    scale := if scale < 0 then 0 else scale - 1;
    if i < |text| && IsExponent(text[i]) { scale := scale - exponent; }
    val.scale := scale;
    mag.NonZero();
    if sign < 0 { mag.Negate(); }
    end := i;
  }

  // ---------------------------------------------------------------- decimals there and back

  /**
   Digits, perhaps with a point among them, behind white space and either sign or none, are read as
   one integer, with the number of those behind the point as the scale. An exponent follows 'e' or 'E'.
   */
  lemma {:induction false} DecimalNumeral(spaces: string, sign: string, whole: string, point: bool, fraction: string,
                                          rest: string, exponent: int)
    requires AllSpaces(spaces) && (sign == "" || sign == "+" || sign == "-")
    requires AllDigits(whole) && AllDigits(fraction) && (whole != "" || point) && (!point ==> fraction == "")
    requires rest != "" ==> !IsDigit(rest[0]) && (point || rest[0] != '.')
    ensures var text := spaces + sign + whole + (if point then "." + fraction else "");
      ScanDecimal(text + rest, 0, exponent)
      == (Signed(sign, DecimalValue(whole + fraction)),
          |fraction| - ExponentAt(rest, exponent),
          |text|)
  {
    hide DecimalValue, ScanDecimal;
    if point {
      WithPoint(spaces, sign, whole, fraction, rest, exponent);
    } else {
      WithoutPoint(spaces, sign, whole, rest, exponent);
      assert spaces + sign + whole + "" == spaces + sign + whole && whole + "" == whole;
    }
  }

  lemma {:induction false} WithoutPoint(spaces: string, sign: string, whole: string, rest: string, exponent: int)
    requires AllSpaces(spaces) && (sign == "" || sign == "+" || sign == "-") && AllDigits(whole) && whole != ""
    requires rest != "" ==> !IsDigit(rest[0]) && rest[0] != '.'
    ensures ScanDecimal(spaces + sign + whole + rest, 0, exponent)
         == (Signed(sign, DecimalValue(whole)), 0 - ExponentAt(rest, exponent), |spaces + sign + whole|)
  {
    hide DecimalValue, NumberStart, SignOf, DigitsEnd;
    var s, q, e := spaces + sign + whole + rest, |spaces + sign|, |spaces + sign + whole|;
    assert s == spaces + sign + (whole + rest) && s[q..e] == whole && whole + "" == whole;
    NumberHead(spaces, sign, whole + rest);
    DigitsEndIs(s, q, e);
  }

  lemma {:induction false} WithPoint(spaces: string, sign: string, whole: string, fraction: string, rest: string,
                                     exponent: int)
    requires AllSpaces(spaces) && (sign == "" || sign == "+" || sign == "-") && AllDigits(whole) && AllDigits(fraction)
    requires rest != "" ==> !IsDigit(rest[0])
    ensures var text := spaces + sign + whole + ("." + fraction);
      ScanDecimal(text + rest, 0, exponent)
      == (Signed(sign, DecimalValue(whole + fraction)), |fraction| - ExponentAt(rest, exponent), |text|)
  {
    hide DecimalValue, NumberStart, SignOf, ScanDecimal;
    var head := spaces + sign + whole;
    var text := head + ("." + fraction);
    var s, q, e := text + rest, |spaces + sign|, |head|;
    PointParts(head, fraction, rest);
    assert s == spaces + sign + (whole + "." + fraction + rest);
    NumberHead(spaces, sign, whole + "." + fraction + rest);
    assert s[q..e] == head[q..] && head[q..] == whole;
    ScanAtPoint(s, q, e, |text|, exponent);
  }

  lemma {:induction false} ScanAtPoint(s: string, q: nat, e: nat, f: nat, exponent: int)
    requires NumberStart(s, 0) == q && q <= e < f <= |s| && s[e] == '.'
    requires AllDigits(s[q..e]) && AllDigits(s[e + 1..f]) && (f < |s| ==> !IsDigit(s[f]))
    ensures AllDigits(s[q..e] + s[e + 1..f])
    ensures ScanDecimal(s, 0, exponent)
         == (SignOf(s, 0) * DecimalValue(s[q..e] + s[e + 1..f]),
             f - e - 1 - (if f < |s| && s[f] in {'e', 'E'} then exponent else 0),
             f)
  {
    hide DecimalValue, NumberStart, SignOf, DigitsEnd;
    DigitsEndIs(s, q, e);
    DigitsEndIs(s, e + 1, f);
  }

  lemma {:induction false} PointParts(head: string, fraction: string, rest: string)
    ensures var text := head + ("." + fraction); var s := text + rest;
      && s[|head|] == '.' && s[|head| + 1..|text|] == fraction && s[..|head|] == head
      && (rest != "" ==> s[|text|] == rest[0])
  {}

  /** The exponent counts behind either letter. */
  function ExponentAt(rest: string, exponent: int): int {
    if rest != "" && rest[0] in {'e', 'E'} then exponent else 0
  }

  /** What is read from a sign, whole digits, and perhaps a point and more digits. */
  lemma {:induction false} ScanShape(minus: string, whole: string, fraction: string, point: bool)
    requires (minus == "" || minus == "-") && whole != "" && AllDigits(whole) && AllDigits(fraction)
    requires !point ==> fraction == ""
    ensures var s := minus + whole + (if point then "." + fraction else "");
      ScanDecimal(s, 0, 0) == ((if minus == "-" then -1 else 1) * DecimalValue(whole + fraction), |fraction|, |s|)
  {
    hide DecimalValue, ScanDecimal;
    var s := minus + whole + (if point then "." + fraction else "");
    DecimalNumeral("", minus, whole, point, fraction, "", 0);
    assert "" + minus + whole + (if point then "." + fraction else "") == s && s + "" == s;
  }

  /** Digits of which the last ones are zeros stand for the number without them, at a smaller scale. */
  lemma {:induction false} DroppedZeros(u: int, scale: int, e: nat)
    requires e <= |ShowNat(Abs(u))| && forall i :: e <= i < |ShowNat(Abs(u))| ==> ShowNat(Abs(u))[i] == '0'
    ensures
      var m := ShowNat(Abs(u));
      AllDigits(m[..e])
      && RealOf((if u < 0 then -1 else 1) * DecimalValue(m[..e]), scale - (|m| - e)) == RealOf(u, scale)
  {
    hide ShowNat, RealOf, Pow, DecimalValue;
    var m := ShowNat(Abs(u));
    var d, k, s := DecimalValue(m[..e]), |m| - e, if u < 0 then -1 else 1;
    assert m == m[..e] + Zeros(k);
    DecimalAppend(m[..e], Zeros(k));
    ZerosValue(k);
    ReadShown(Abs(u));
    MulAssoc(s, d, Pow(10, k));
    assert u == (s * d) * Pow(10, k);
    Rescale(s * d, scale - k, k);
  }

  lemma {:induction false} LeadingZeros(k: nat, digits: string)
    requires AllDigits(digits)
    ensures AllDigits(Zeros(k) + digits) && DecimalValue(Zeros(k) + digits) == DecimalValue(digits)
  {
    DecimalAppend(Zeros(k), digits);
    ZerosValue(k);
  }

  /** Text is read as the number, of which e digits were kept. */
  ghost predicate ReadsAs(text: string, u: int, scale: int, e: int) {
    var r := ScanDecimal(text, 0, 0);
    r.2 == |text| && RealOf(r.0, r.1) == RealOf(u, scale) && r.1 == scale - (|ShowNat(Abs(u))| - e)
  }

  lemma {:induction false} SmallReadBack(u: int, scale: nat, k: nat)
    requires var m := ShowNat(Abs(u)); k == Significant(m) && |m| <= scale
    ensures var m := ShowNat(Abs(u)); ReadsAs(Minus(u) + ("0." + Zeros(scale - |m|) + m[..k]), u, scale, k)
  {
    hide ShowNat, RealOf, Significant, ScanDecimal, DecimalValue;
    var m, minus := ShowNat(Abs(u)), Minus(u);
    var zeros := Zeros(scale - |m|);
    var fraction := zeros + m[..k];
    ScanShape(minus, "0", fraction, true);
    assert minus + ("0." + zeros + m[..k]) == minus + "0" + ("." + fraction);
    assert "0" + fraction == Zeros(scale - |m| + 1) + m[..k];
    LeadingZeros(scale - |m| + 1, m[..k]);
    DroppedZeros(u, scale, k);
  }

  lemma {:induction false} FractionReadBack(u: int, scale: nat, k: nat, dot: nat)
    requires var m := ShowNat(Abs(u)); k == Significant(m) && dot == |m| - scale && 0 < dot < k
    ensures var m := ShowNat(Abs(u)); ReadsAs(Minus(u) + (m[..dot] + ("." + m[dot..k])), u, scale, k)
  {
    hide ShowNat, RealOf, Significant, ScanDecimal, DecimalValue;
    var m, minus := ShowNat(Abs(u)), Minus(u);
    ScanShape(minus, m[..dot], m[dot..k], true);
    assert minus + (m[..dot] + ("." + m[dot..k])) == minus + m[..dot] + ("." + m[dot..k]);
    assert m[..dot] + m[dot..k] == m[..k];
    DroppedZeros(u, scale, k);
  }

  lemma {:induction false} NoPointReadBack(u: int, scale: nat, dot: nat)
    requires var m := ShowNat(Abs(u)); Significant(m) <= dot == |m| - scale && dot > 0
    ensures ReadsAs(Minus(u) + (ShowNat(Abs(u))[..dot] + ""), u, scale, dot)
  {
    hide ShowNat, RealOf, Significant, ScanDecimal, DecimalValue;
    var m, minus := ShowNat(Abs(u)), Minus(u);
    ScanShape(minus, m[..dot], "", false);
    assert minus + (m[..dot] + "") == minus + m[..dot] + "";
    assert m[..dot] + "" == m[..dot];
    DroppedZeros(u, scale, dot);
  }

  /** A text with a point, or with the point left off, is read as the number. */
  lemma {:induction false} PointedReadBack(u: int, scale: nat)
    requires u != 0 && scale > 0
    ensures var s, m := DecimalText(u, scale), ShowNat(Abs(u)); var r := ScanDecimal(s, 0, 0);
      r.2 == |s| && RealOf(r.0, r.1) == RealOf(u, scale) && (r.1 == scale <==> Significant(m) == |m|)
  {
    hide ShowNat, RealOf, Significant, ScanDecimal;
    var m := ShowNat(Abs(u));
    var k, dot := Significant(m), |m| - scale;
    if dot <= 0 {
      SmallReadBack(u, scale, k);
    } else if k > dot {
      FractionReadBack(u, scale, k, dot);
    } else {
      NoPointReadBack(u, scale, dot);
    }
  }

  lemma {:induction false} WholeReadBack(u: int, scale: int)
    requires u != 0 && scale <= 0
    ensures var s := DecimalText(u, scale); var r := ScanDecimal(s, 0, 0);
      r.2 == |s| && r.1 == 0 && RealOf(r.0, r.1) == RealOf(u, scale)
  {
    hide ShowNat, RealOf, ScanDecimal, DecimalValue, Pow;
    var m, minus, k := ShowNat(Abs(u)), Minus(u), -scale;
    ScanShape(minus, m + Zeros(k), "", false);
    assert DecimalText(u, scale) == minus + (m + Zeros(k)) + "";
    assert (m + Zeros(k)) + "" == m + Zeros(k);
    DecimalAppend(m, Zeros(k));
    ZerosValue(k);
    ReadShown(Abs(u));
    var s := if u < 0 then -1 else 1;
    MulAssoc(s, Abs(u), Pow(10, k));
    Rescale(u, scale, k);
  }

  lemma {:induction false} LastShown(n: nat)
    requires n > 0
    ensures var m := ShowNat(n); Significant(m) == |m| <==> n % 10 != 0
  {
    var m := ShowNat(n);
    assert m[|m| - 1] == Digit(n);
  }

  /**
   Reading undoes printing: every decimal comes back as the same rational, at whatever scale, with
   nothing left over. It comes back at its own scale exactly when that is zero, or is positive and
   the unscaled integer does not end in a zero.
   */
  lemma {:induction false} DecimalRoundTrip(u: int, scale: int)
    ensures var s := DecimalText(u, scale); var r := ScanDecimal(s, 0, 0);
      && r.2 == |s| && RealOf(r.0, r.1) == RealOf(u, scale)
      && (r.1 == scale <==> scale == 0 || (scale > 0 && Abs(u) % 10 != 0))
  {
    hide ScanDecimal, ShowNat, DecimalValue, Significant;
    if u == 0 {
      ScanShape("", "0", "", false);
      assert "" + "0" + "" == "0" && "0" + "" == "0";
      ReadZero();
    } else if scale <= 0 {
      hide RealOf;
      WholeReadBack(u, scale);
    } else {
      hide RealOf;
      PointedReadBack(u, scale);
      LastShown(Abs(u));
    }
  }

  lemma {:induction false} ReadZero()
    ensures DecimalValue("0") == 0
  {
    ReadShown(0);
  }
}
