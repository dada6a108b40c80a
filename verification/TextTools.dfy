/** String helpers of the configuration code (include/documentdb/odbc/common/utils.h). */
module TextTools {
  import opened Words

  /** The index of the last c, or -1: `std::string::rfind`. */
  function LastIndex(s: string, c: char): (i: int)
    ensures -1 <= i < |s|
    ensures i >= 0 ==> s[i] == c
    ensures forall k :: i < k < |s| ==> s[k] != c
  {
    if |s| == 0 then -1
    else if s[|s| - 1] == c then |s| - 1
    else LastIndex(s[..|s| - 1], c)
  }

  lemma {:induction false} LastIndexIs(s: string, c: char, i: int)
    requires -1 <= i < |s| && (i >= 0 ==> s[i] == c) && forall k :: i < k < |s| ==> s[k] != c
    ensures LastIndex(s, c) == i
  {}

  function LowerChar(c: char): char {
    if 'A' <= c <= 'Z' then (c as int + 32) as char else c
  }

  function ToLower(s: string): (r: string)
    ensures |r| == |s|
  {
    seq(|s|, i requires 0 <= i < |s| => LowerChar(s[i]))
  }

  /** The white space of the C locale. */
  predicate IsSpace(c: char) {
    c == ' ' || '\t' <= c <= '\r'
  }

  predicate AllSpaces(s: string) {
    forall i :: 0 <= i < |s| ==> IsSpace(s[i])
  }

  /** The rest of s behind the white space at its start. */
  function StripLeft(s: string): (r: string)
    ensures |r| <= |s| && r == s[|s| - |r|..] && AllSpaces(s[..|s| - |r|])
    ensures r != "" ==> !IsSpace(r[0])
  {
    if |s| > 0 && IsSpace(s[0]) then
      var r := StripLeft(s[1..]);
      assert s[..|s| - |r|] == [s[0]] + s[1..][..|s| - 1 - |r|];
      r
    else s
  }

  /** s up to the white space at its end. */
  function StripRight(s: string): (r: string)
    ensures |r| <= |s| && r == s[..|r|] && AllSpaces(s[|r|..])
    ensures r != "" ==> !IsSpace(r[|r| - 1])
  {
    if |s| > 0 && IsSpace(s[|s| - 1]) then
      var r := StripRight(s[..|s| - 1]);
      assert s[|r|..] == s[..|s| - 1][|r|..] + [s[|s| - 1]];
      r
    else s
  }

  function Strip(s: string): (r: string)
    ensures |r| <= |s| && (forall c :: c in r ==> c in s)
  {
    StripRight(StripLeft(s))
  }

  /** No white space at either end. */
  predicate Tight(s: string) {
    s == "" || (!IsSpace(s[0]) && !IsSpace(s[|s| - 1]))
  }

  lemma {:induction false} StripTight(s: string)
    ensures Strip(s) == s <==> Tight(s)
  {
    hide StripLeft, StripRight;
    var l := StripLeft(s);
    if Tight(s) && s != "" { assert s[..|s| - |l|] == ""; }
  }

  /** Stripping takes away the white space on both sides and nothing else. */
  lemma {:induction false} StripPadded(a: string, t: string, b: string)
    requires AllSpaces(a) && AllSpaces(b) && Tight(t)
    ensures Strip(a + t + b) == t
  {
    hide StripLeft, StripRight;
    var s := a + t + b;
    var l := StripLeft(s);
    var r := StripRight(l);
    StripLeftIs(s, if t == "" then |s| else |a|);
    if t == "" {
      assert l == "";
    } else {
      assert l == t + b;
      StripRightIs(l, |t|);
      assert l[..|t|] == t;
    }
  }

  lemma {:induction false} StripLeftIs(s: string, k: nat)
    requires k <= |s| && AllSpaces(s[..k]) && (k < |s| ==> !IsSpace(s[k]))
    ensures StripLeft(s) == s[k..]
  {
    hide StripLeft;
    var j := |s| - |StripLeft(s)|;
    assert forall i :: 0 <= i < k ==> s[i] == s[..k][i];
    assert forall i :: 0 <= i < j ==> s[i] == s[..j][i];
    assert j < |s| ==> s[j] == s[j..][0];
  }

  lemma {:induction false} StripRightIs(s: string, k: nat)
    requires k <= |s| && AllSpaces(s[k..]) && (k > 0 ==> !IsSpace(s[k - 1]))
    ensures StripRight(s) == s[..k]
  {
    hide StripRight;
    var j := |StripRight(s)|;
    assert forall i :: k <= i < |s| ==> s[i] == s[k..][i - k];
    assert forall i :: j <= i < |s| ==> s[i] == s[j..][i - j];
    assert j > 0 ==> s[j - 1] == s[..j][j - 1];
  }

  /** White space is the six characters of the C locale, a digit one of ten. */
  lemma {:induction false} CharacterClasses(c: char)
    ensures IsSpace(c) <==> c as int in {9, 10, 11, 12, 13, 32}
    ensures IsDigit(c) <==> c in "0123456789"
  {
    if IsDigit(c) { assert "0123456789"[c as int - '0' as int] == c; }
  }

  /** a is b with some small letters written as capitals. */
  predicate SameLetters(a: string, b: string) {
    |a| == |b| && forall i :: 0 <= i < |a| ==> a[i] == b[i] || ('a' <= b[i] <= 'z' && a[i] as int + 32 == b[i] as int)
  }

  predicate NoCapitals(s: string) {
    forall i :: 0 <= i < |s| ==> !('A' <= s[i] <= 'Z')
  }

  /** Lowering finds exactly the texts with the same letters. */
  lemma {:induction false} LowerIs(a: string, b: string)
    requires NoCapitals(b)
    ensures ToLower(a) == b <==> SameLetters(a, b)
  {
    var l := ToLower(a);
    if SameLetters(a, b) {
      assert forall i :: 0 <= i < |a| ==> l[i] == b[i];
    }
  }

  predicate IsDigit(c: char) { '0' <= c <= '9' }

  predicate AllDigits(s: string) {
    forall i :: 0 <= i < |s| ==> IsDigit(s[i])
  }

  /** The number that a string of digits stands for; none stands for zero. */
  function DecimalValue(s: string): nat
    requires AllDigits(s)
  {
    if |s| == 0 then 0 else 10 * DecimalValue(s[..|s| - 1]) + (s[|s| - 1] as int - '0' as int)
  }

  /** The last decimal digit of a number. */
  function Digit(n: nat): char { (n % 10 + '0' as int) as char }

  function ShowNat(n: nat): (s: string)
    ensures s != "" && AllDigits(s)
  {
    if n < 10 then [Digit(n)] else ShowNat(n / 10) + [Digit(n)]
  }

  function Show(n: int): string {
    if n < 0 then "-" + ShowNat(-n) else ShowNat(n)
  }

  /** Printing a number and reading it give the number back. */
  lemma {:induction false} ReadShown(n: nat)
    ensures DecimalValue(ShowNat(n)) == n
  {
    var s := ShowNat(n);
    if n < 10 {
      assert s[..0] == "";
    } else {
      ReadShown(n / 10);
      assert s[..|s| - 1] == ShowNat(n / 10);
    }
  }

  lemma {:induction false} ShownLength(n: nat, digits: nat, bound: nat)
    requires digits > 0 && n < bound && bound == Pow(10, digits)
    ensures |ShowNat(n)| <= digits
    decreases digits
  {
    if n < 10 {
    } else {
      ShownLength(n / 10, digits - 1, Pow(10, digits - 1));
    }
  }

  /** A number of at most 32 bits takes fewer characters than a string object takes bytes. */
  lemma {:induction false} ShownShort(n: nat)
    requires n < 0x1_0000_0000
    ensures |ShowNat(n)| < 32
  {
    ShownLength(n, 10, 10000000000);
  }

  // ---------------------------------------------------------------- digits in groups

  function Zeros(k: nat): (s: string)
    ensures |s| == k && AllDigits(s)
  {
    seq(k, _ => '0')
  }

  /** A number in a field of the given width that is filled with zeros. */
  function Filled(n: nat, width: nat): (s: string)
    ensures AllDigits(s)
  {
    var s := ShowNat(n);
    if |s| < width then Zeros(width - |s|) + s else s
  }

  lemma {:induction false} FilledStep(r: nat, k: nat)
    requires k > 0
    ensures Filled(r, k + 1) == Filled(r / 10, k) + [Digit(r)]
  {
    if r < 10 {
      assert ShowNat(0) == "0";
      assert Zeros(k) == Filled(0, k);
    }
  }

  lemma {:induction false} TenTimes(q: int, p: int, r: int)
    requires q > 0 && p > 0
    ensures q * p > 0 && q * (10 * p) + r == 10 * (q * p) + r
  {
    MulAssoc(q, 10, p);
    MulAssoc(10, q, p);
    MulMono(1, q, p);
  }

  lemma {:induction false} LastDigit(n: nat, h: int, r: nat)
    requires h > 0 && n == 10 * h + r
    ensures n >= 10 && n / 10 == h + r / 10 && n % 10 == r % 10
  {}

  lemma {:induction false} ShowStep(n: nat)
    requires n >= 10
    ensures ShowNat(n) == ShowNat(n / 10) + [Digit(n)]
  {}

  lemma {:induction false} FilledOne(r: nat)
    requires r < 10
    ensures Filled(r, 1) == [Digit(r)]
  {}

  /** The last k digits of a number can be printed on their own. */
  lemma {:induction false} ShowSplit(n: nat, q: nat, r: nat, k: nat)
    requires q > 0 && k > 0 && r < Pow(10, k) && n == q * Pow(10, k) + r
    ensures ShowNat(n) == ShowNat(q) + Filled(r, k)
    decreases k
  {
    var p := Pow(10, k - 1);
    PowPositive(10, k - 1);
    assert Pow(10, k) == 10 * p && (k == 1 ==> p == 1);
    hide Pow, ShowNat, Filled, Digit;
    TenTimes(q, p, r);
    LastDigit(n, q * p, r);
    ShowStep(n);
    if k == 1 {
      FilledOne(r);
    } else {
      ShowSplit(n / 10, q, r / 10, k - 1);
      FilledStep(r, k - 1);
    }
  }

  /** Reading digits without a leading zero and printing the number give the digits back. */
  lemma {:induction false} ShowRead(s: string)
    requires s != "" && AllDigits(s) && (|s| == 1 || s[0] != '0')
    ensures ShowNat(DecimalValue(s)) == s
    decreases |s|
  {
    var front := s[..|s| - 1];
    assert s == front + [s[|s| - 1]];
    if |s| == 1 {
      assert DecimalValue(front) == 0;
    } else {
      ShowRead(front);
    }
  }

  lemma {:induction false} DecimalAppend(a: string, b: string)
    requires AllDigits(a) && AllDigits(b)
    ensures AllDigits(a + b) && DecimalValue(a + b) == DecimalValue(a) * Pow(10, |b|) + DecimalValue(b)
    decreases |b|
  {
    if |b| == 0 {
      assert a + b == a;
    } else {
      var front := b[..|b| - 1];
      assert (a + b)[..|a + b| - 1] == a + front;
      DecimalAppend(a, front);
      MulAssoc(DecimalValue(a), 10, Pow(10, |front|));
      MulAssoc(10, DecimalValue(a), Pow(10, |front|));
    }
  }

  lemma {:induction false} ZerosValue(k: nat)
    ensures DecimalValue(Zeros(k)) == 0
  {
    if k == 0 {
    } else {
      assert Zeros(k)[..k - 1] == Zeros(k - 1);
      ZerosValue(k - 1);
    }
  }
}
