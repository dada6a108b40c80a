/**
 What the connection string parser makes of text that the printer does not write: white space,
 capitals, short keys, braces, addresses with ports, leading zeros.
 */
module ConnectionText {
  import opened Common
  import opened Words
  import opened TextTools
  import opened ConnectionStrings
  import opened ConnectionRoundTrip

  // ---------------------------------------------------------------- keys

  lemma {:induction false} PlainHasNoCapitals(s: string)
    requires PlainName(s)
    ensures NoCapitals(s)
  {}

  /** A key in any mixture of capitals and small letters is the attribute's. */
  lemma {:induction false} KeyInAnyCase(key: string, f: Field)
    requires f < FIELDS && |KEYS| == FIELDS && SameLetters(key, KEYS[f])
    ensures FieldOf(ToLower(key)) == Some(f)
  {
    hide PlainName, FieldOf, SameLetters, ToLower;
    KeyIsPlain(f);
    PlainHasNoCapitals(KEYS[f]);
    LowerIs(key, KEYS[f]);
    KeyFound(f);
  }

  /** The short forms stand for the user and the password. */
  lemma {:induction false} ShortKeys(key: string)
    ensures |KEYS| == FIELDS && KEYS[USER] == "user" && KEYS[PASSWORD] == "password"
    ensures SameLetters(key, "uid") ==> FieldOf(ToLower(key)) == Some(USER)
    ensures SameLetters(key, "pwd") ==> FieldOf(ToLower(key)) == Some(PASSWORD)
  {
    hide SameLetters, ToLower, Find;
    LowerIs(key, "uid");
    LowerIs(key, "pwd");
    assert "uid"[0] != "pwd"[0];
  }

  /** Any other key is unknown, and its segment is passed over. */
  lemma {:induction false} UnknownKey(cfg: Settings, key: string, text: string, directories: set<string>)
    requires forall f :: 0 <= f < |KEYS| ==> !SameLetters(key, KEYS[f])
    requires !SameLetters(key, "uid") && !SameLetters(key, "pwd")
    ensures HandlePair(cfg, key, text, directories) == cfg
  {
    hide SameLetters, ToLower, Find, Set, KEYS;
    LowerIs(key, "uid");
    LowerIs(key, "pwd");
    FindBounds(KEYS, ToLower(key), 0);
    forall f | 0 <= f < |KEYS| ensures KEYS[f] != ToLower(key) {
      KeyCount();
      KeyIsPlain(f);
      PlainHasNoCapitals(KEYS[f]);
      LowerIs(key, KEYS[f]);
    }
  }

  lemma {:induction false} KeyCount()
    ensures |KEYS| == FIELDS
  {}

  // ---------------------------------------------------------------- values

  predicate Braced(t: string) { |t| > 1 && t[0] == '{' && t[|t| - 1] == '}' }

  /** White space around a value goes, and no more than that unless the value is in braces. */
  lemma {:induction false} PlainValue(a: string, t: string, b: string)
    requires AllSpaces(a) && AllSpaces(b) && Tight(t) && !Braced(t)
    ensures Unwrapped(a + t + b) == t
  {
    hide Strip;
    StripPadded(a, t, b);
  }

  /** Of a value in braces everything between them is kept, white space and inner braces included. */
  lemma {:induction false} BracedValue(a: string, t: string, b: string)
    requires AllSpaces(a) && AllSpaces(b)
    ensures Unwrapped(a + ("{" + t + "}") + b) == t
  {
    hide Strip;
    var w := "{" + t + "}";
    StripPadded(a, w, b);
    assert w[1..|w| - 1] == t;
  }

  // ---------------------------------------------------------------- segments

  /** A segment with white space around its key is cut at the '=' before its value. */
  lemma {:induction false} SegmentParts(cfg: Settings, a: string, key: string, b: string, value: string,
                                        directories: set<string>)
    requires AllSpaces(a) && AllSpaces(b) && Tight(key) && key != "" && '=' !in value
    ensures HandleSegment(cfg, a + key + b + "=" + value, directories)
         == HandlePair(cfg, key, Unwrapped(value), directories)
  {
    hide HandlePair, Unwrapped, Strip;
    var front, segment := a + key + b, a + key + b + "=" + value;
    StripPadded(a, key, b);
    LastIndexIs(segment, '=', |front|);
    assert segment[..|front|] == front && segment[|front| + 1..] == value;
  }

  lemma {:induction false} KeyIsTight(key: string, f: Field)
    requires f < FIELDS && |KEYS| == FIELDS && SameLetters(key, KEYS[f])
    ensures Tight(key) && key != ""
  {
    hide KEYS;
    KeyIsPlain(f);
  }

  /**
   A segment for an attribute, its key in any case and white space around key and value, sets the
   attribute as the bare key and value do.
   */
  lemma {:induction false} SegmentSets(cfg: Settings, a: string, key: string, b: string, c: string, value: string,
                                       d: string, f: Field, directories: set<string>)
    requires AllSpaces(a) && AllSpaces(b) && AllSpaces(c) && AllSpaces(d)
    requires f < FIELDS && |KEYS| == FIELDS && SameLetters(key, KEYS[f]) && '=' !in value
    ensures Tight(value) && !Braced(value) ==>
      HandleSegment(cfg, a + key + b + "=" + (c + value + d), directories) == Set(cfg, f, value, directories)
    ensures HandleSegment(cfg, a + key + b + "=" + (c + ("{" + value + "}") + d), directories)
         == Set(cfg, f, value, directories)
  {
    hide HandleSegment, Set, SameLetters, FieldOf, ToLower, Unwrapped, KEYS, Tight, Braced;
    KeyIsTight(key, f);
    KeyInAnyCase(key, f);
    SegmentParts(cfg, a, key, b, c + value + d, directories);
    SegmentParts(cfg, a, key, b, c + ("{" + value + "}") + d, directories);
    BracedValue(c, value, d);
    if Tight(value) && !Braced(value) { PlainValue(c, value, d); }
  }

  /** Terminating zeros are not part of the string, zeros before other text are. */
  lemma {:induction false} TerminatorsIgnored(cfg: Settings, s: string, zeros: string, delimiter: char,
                                              directories: set<string>)
    requires (s == "" || s[|s| - 1] != '\0') && forall i :: 0 <= i < |zeros| ==> zeros[i] == '\0'
    ensures Parsed(cfg, s + zeros, delimiter, directories) == HandleSegments(cfg, Split(s, delimiter), directories)
  {
    hide HandleSegments, Split;
    TerminatorsGone(s, zeros);
  }

  lemma {:induction false} TerminatorsGone(s: string, zeros: string)
    requires (s == "" || s[|s| - 1] != '\0') && forall i :: 0 <= i < |zeros| ==> zeros[i] == '\0'
    ensures WithoutTrailingZeros(s + zeros) == s
    decreases |zeros|
  {
    if |zeros| == 0 {
      assert s + zeros == s;
    } else {
      var front := zeros[..|zeros| - 1];
      assert (s + zeros)[..|s + zeros| - 1] == s + front;
      TerminatorsGone(s, front);
    }
  }

  // ---------------------------------------------------------------- addresses

  lemma {:induction false} CountAppend(a: string, b: string, c: char)
    ensures CountOf(a + b, c) == CountOf(a, c) + CountOf(b, c)
    decreases |b|
  {
    if |b| == 0 {
      assert a + b == a;
    } else {
      assert (a + b)[..|a + b| - 1] == a + b[..|b| - 1];
      CountAppend(a, b[..|b| - 1], c);
    }
  }

  lemma {:induction false} FirstIndexIs(a: string, c: char, b: string)
    requires c !in a
    ensures FirstIndex(a + [c] + b, c) == |a|
  {
    var s := a + [c] + b;
    var i := FirstIndex(s, c);
    assert s[|a|] == c;
    assert forall k :: 0 <= k < |a| ==> s[k] == a[k];
  }

  lemma {:induction false} OneColon(host: string, port: string)
    requires ':' !in host && ':' !in port
    ensures CountOf(host + ":" + port, ':') == 1
  {
    NoColon(host);
    NoColon(port);
    CountAppend(host, ":", ':');
    CountAppend(host + ":", port, ':');
    assert CountOf(":", ':') == 1 by { assert CountOf(":"[..0], ':') == 0; }
  }

  /** Host and port are what is before and behind the one colon. */
  lemma {:induction false} AddressParts(host: string, port: string)
    requires ':' !in host && ':' !in port
    ensures ParseAddress(host + ":" + port) == (host, if port == "" then 0 else ParsePortRange(port))
  {
    hide CountOf, FirstIndex, ParsePortRange;
    var s := host + ":" + port;
    OneColon(host, port);
    FirstIndexIs(host, ':', port);
    assert s == host + [':'] + port;
    assert s[..|host|] == host && s[|host| + 1..] == port;
  }

  /** With more than one colon there is neither. */
  lemma {:induction false} TwoColons(a: string, b: string, c: string)
    ensures ParseAddress(a + ":" + b + ":" + c) == ("", 0)
  {
    hide FirstIndex, ParsePortRange;
    CountAppend(a, ":", ':');
    CountAppend(a + ":", b, ':');
    CountAppend(a + ":" + b, ":", ':');
    CountAppend(a + ":" + b + ":", c, ':');
    assert CountOf(":", ':') == 1 by { assert CountOf(":"[..0], ':') == 0; }
  }

  /** A port is at most five digits of at most 65535, with white space around them; all else is zero. */
  lemma {:induction false} PortText(a: string, t: string, b: string)
    requires AllSpaces(a) && AllSpaces(b) && Tight(t)
    ensures ParsePort(a + t + b) == if AllDigits(t) && |t| <= 5 && DecimalValue(t) <= 65535 then DecimalValue(t) else 0
  {
    hide Strip, DecimalValue;
    StripPadded(a, t, b);
  }

  lemma {:induction false} ShownIsTight(n: nat)
    ensures Tight(ShowNat(n))
  {
    hide ShowNat;
    DigitsPlain(ShowNat(n));
  }

  lemma {:induction false} ShownPort(a: string, n: nat, b: string)
    requires AllSpaces(a) && AllSpaces(b) && n <= 65535
    ensures ParsePort(a + ShowNat(n) + b) == n
  {
    hide ShowNat, DecimalValue, ParsePort, Pow;
    ReadShown(n);
    ShownIsTight(n);
    PortText(a, ShowNat(n), b);
    var k := FiveDigits();
    ShownLength(n, k, Pow(10, k));
  }

  lemma {:induction false} FiveDigits() returns (k: nat)
    ensures k == 5 && Pow(10, k) == 100000
  {
    k := 5;
    assert Pow(10, 2) == 100 && Pow(10, 3) == 1000;
    PowAdd(10, 2, 3);
  }

  /** An address with a port: both are found, with white space around the port. */
  lemma {:induction false} AddressWithPort(host: string, a: string, n: nat, b: string)
    requires ':' !in host && AllSpaces(a) && AllSpaces(b) && n <= 65535
    ensures ParseAddress(host + ":" + (a + ShowNat(n) + b)) == (host, n)
  {
    hide ShowNat, ParseAddress, ParsePort, FirstIndex;
    var port := a + ShowNat(n) + b;
    AddressParts(host, port);
    ShownPort(a, n, b);
    assert FirstIndex(port, '.') == |port|;
  }

  lemma {:induction false} RangeParts(x: string, y: string)
    requires '.' !in x
    ensures ParsePortRange(x + ".." + y)
         == var first, last := ParsePort(x), ParsePort(y); if 0 < first <= last then first else 0
  {
    hide ParsePort, FirstIndex;
    var s := x + ".." + y;
    FirstIndexIs(x, '.', "." + y);
    assert s == x + ['.'] + ("." + y);
    assert s[..|x|] == x && s[|x| + 2..] == y && s[|x| + 1] == '.';
  }

  /** An address with a range of ports: its first port, if the range is not empty. */
  lemma {:induction false} AddressWithRange(host: string, m: nat, n: nat)
    requires ':' !in host && 0 < m <= 65535 && 0 < n <= 65535
    ensures ParseAddress(host + ":" + (ShowNat(m) + ".." + ShowNat(n))) == (host, if m <= n then m else 0)
  {
    hide ShowNat, ParseAddress, ParsePort, ParsePortRange;
    var port := ShowNat(m) + ".." + ShowNat(n);
    AddressParts(host, port);
    RangeParts(ShowNat(m), ShowNat(n));
    NoPadding(m);
    NoPadding(n);
  }

  lemma {:induction false} NoPadding(n: nat)
    requires n <= 65535
    ensures ParsePort(ShowNat(n)) == n
  {
    hide ShowNat, ParsePort;
    ShownPort("", n, "");
    assert "" + ShowNat(n) + "" == ShowNat(n);
  }

  /** A single point in the port, or one at its end, spoils it. */
  lemma {:induction false} OnePoint(host: string, x: string, y: string)
    requires ':' !in host && ':' !in x && ':' !in y && '.' !in x && (y == "" || y[0] != '.')
    ensures ParseAddress(host + ":" + (x + "." + y)) == (host, 0)
  {
    hide ParseAddress, ParsePort, FirstIndex;
    var port := x + "." + y;
    AddressParts(host, port);
    FirstIndexIs(x, '.', y);
    assert port == x + ['.'] + y && port[|x| + 1..] == y;
  }

  /** A hostname segment with a port sets both attributes, the port unless one is set. */
  lemma {:induction false} HostnameSegment(cfg: Settings, host: string, n: nat, directories: set<string>)
    requires ':' !in host && '=' !in host && (host == "" || !IsSpace(host[0])) && n <= 65535
    ensures |KEYS| == FIELDS && KEYS[HOSTNAME] == "hostname"
    ensures HandleSegment(cfg, "hostname=" + (host + ":" + ShowNat(n)), directories)
         == cfg[HOSTNAME := TextValue(host)][PORT := if PORT in cfg then cfg[PORT] else NumberValue(n)]
  {
    hide ShowNat, HandleSegment, ParseAddress, Accept, KindOf;
    var value := host + ":" + ShowNat(n);
    DigitsPlain(ShowNat(n));
    SegmentSets(cfg, "", "hostname", "", "", value, "", HOSTNAME, directories);
    assert "" + "hostname" + "" + "=" + ("" + value + "") == "hostname=" + value;
    AddressWithPort(host, "", n, "");
    assert "" + ShowNat(n) + "" == ShowNat(n);
    HostIsText(value, directories);
  }

  /** So does a connection string of that one segment. */
  lemma {:induction false} HostnameString(host: string, n: nat, directories: set<string>)
    requires ':' !in host && ';' !in host && '=' !in host && (host == "" || !IsSpace(host[0])) && n <= 65535
    ensures Parsed(map[], "hostname=" + (host + ":" + ShowNat(n)), ';', directories)
         == map[HOSTNAME := TextValue(host), PORT := NumberValue(n)]
  {
    hide ShowNat, HandleSegment, HandleSegments, Split;
    var s := "hostname=" + (host + ":" + ShowNat(n));
    DigitsPlain(ShowNat(n));
    HostnameSegment(map[], host, n, directories);
    TerminatorsIgnored(map[], s, "", ';', directories);
    assert s + "" == s;
    SplitStep(map[], s, ';', directories);
    LastIndexIs(s, ';', -1);
  }

  // ---------------------------------------------------------------- what the setters take

  /** The attributes with limits or a format of their own. */
  lemma {:induction false} NumberKinds()
    ensures |KEYS| == FIELDS
    ensures KEYS[2] == "default_fetch_size" && KindOf(2) == Count(1)
    ensures KEYS[5] == "hostname" && KindOf(5) == Host
    ensures KEYS[7] == "log_path" && KindOf(7) == Directory
    ensures KEYS[8] == "login_timeout_sec" && KindOf(8) == Count(0)
    ensures KEYS[10] == "port" && KindOf(10) == PortNumber
    ensures KEYS[15] == "scan_limit" && KindOf(15) == Count(1)
  {}

  /** The attributes with a list of options. */
  lemma {:induction false} ChoiceKinds()
    ensures |KEYS| == FIELDS
    ensures KEYS[6] == "log_level" && KindOf(6) == Choice(LOG_LEVELS, false)
    ensures KEYS[11] == "read_preference" && KindOf(11) == Choice(READ_PREFERENCES, true)
    ensures KEYS[16] == "scan_method" && KindOf(16) == Choice(SCAN_METHODS, true)
  {}

  /** The attributes that are true or false. */
  lemma {:induction false} FlagKinds()
    ensures |KEYS| == FIELDS
    ensures KEYS[12] == "refresh_schema" && KindOf(12) == Flag
    ensures KEYS[14] == "retry_reads" && KindOf(14) == Flag
    ensures KEYS[18] == "ssh_enable" && KindOf(18) == Flag
    ensures KEYS[23] == "ssh_strict_host_key_checking" && KindOf(23) == Flag
    ensures KEYS[25] == "tls" && KindOf(25) == Flag
    ensures KEYS[26] == "tls_allow_invalid_hostnames" && KindOf(26) == Flag
  {}

  /** All others take any text. */
  lemma {:induction false} TextKinds(f: Field)
    requires f in {0, 1, 3, 4, 9, 13, 17, 19, 20, 21, 22, 24, 27, 28}
    ensures KindOf(f) == Text
  {}

  /** The number of a text of digits, leading zeros allowed, within its limits; above 2^31 it wraps. */
  lemma {:induction false} CountText(k: nat, n: nat, least: int, directories: set<string>)
    requires least >= 0
    ensures var t := Zeros(k) + ShowNat(n);
      Accept(Count(least), t, directories)
      == if |t| >= 32 || n < least || n >= 0x1_0000_0000 then None
         else Some(NumberValue(if n < 0x8000_0000 then n else n - 0x1_0000_0000))
  {
    hide ShowNat, DecimalValue;
    DecimalAppend(Zeros(k), ShowNat(n));
    ZerosValue(k);
    ReadShown(n);
  }

  lemma {:induction false} PortNumberText(k: nat, n: nat, directories: set<string>)
    ensures var t := Zeros(k) + ShowNat(n);
      Accept(PortNumber, t, directories)
      == if |t| < 32 && 1 <= n <= 65535 then Some(NumberValue(n)) else None
  {
    hide ShowNat, DecimalValue;
    DecimalAppend(Zeros(k), ShowNat(n));
    ZerosValue(k);
    ReadShown(n);
  }

  /** Text with anything but digits is no number. */
  lemma {:induction false} NoNumber(t: string, i: nat, least: int, directories: set<string>)
    requires i < |t| && t[i] !in "0123456789"
    ensures Accept(Count(least), t, directories) == None && Accept(PortNumber, t, directories) == None
  {
    hide DecimalValue;
    CharacterClasses(t[i]);
  }

  /** A flag is set by the two words in any case, and by nothing else. */
  lemma {:induction false} FlagWords(t: string, directories: set<string>)
    ensures Accept(Flag, t, directories) ==
      if SameLetters(t, "true") then Some(FlagValue(true))
      else if SameLetters(t, "false") then Some(FlagValue(false))
      else None
  {
    hide SameLetters, ToLower;
    LowerIs(t, "true");
    LowerIs(t, "false");
  }

  /** t is the option in any case, with spaces for underscores where that is allowed. */
  predicate Spells(t: string, option: string, underscores: bool) {
    |t| == |option|
    && forall i :: 0 <= i < |t| ==>
         || t[i] == option[i]
         || ('a' <= option[i] <= 'z' && t[i] as int + 32 == option[i] as int)
         || (underscores && option[i] == '_' && t[i] == ' ')
  }

  /** Options are found in any such spelling, with white space around it. */
  lemma {:induction false} ChoiceSpelled(options: seq<string>, underscores: bool, k: nat, a: string, t: string,
                                         b: string, directories: set<string>)
    requires GoodOptions(options) && k < |options| && Spells(t, options[k], underscores)
    requires AllSpaces(a) && AllSpaces(b) && Tight(t)
    ensures Accept(Choice(options, underscores), a + t + b, directories) == Some(ChoiceValue(k))
  {
    hide Strip;
    LowerPadded(a, t, b);
    StripPadded(a, ToLower(t), b);
    SpelledOut(t, options[k], underscores);
    FindOption(options, k, 0);
  }

  lemma {:induction false} LowerPadded(a: string, t: string, b: string)
    requires AllSpaces(a) && AllSpaces(b) && Tight(t)
    ensures ToLower(a + t + b) == a + ToLower(t) + b && Tight(ToLower(t))
  {}

  lemma {:induction false} SpelledOut(t: string, option: string, underscores: bool)
    requires PlainName(option) && Spells(t, option, underscores)
    ensures (if underscores then Underscored(ToLower(t)) else ToLower(t)) == option
  {
    var r := if underscores then Underscored(ToLower(t)) else ToLower(t);
    assert forall i :: 0 <= i < |t| ==> r[i] == option[i];
  }

  /** And whatever a choice setter takes is such a spelling of the option it stores. */
  lemma {:induction false} ChoiceTaken(options: seq<string>, underscores: bool, text: string, directories: set<string>)
    requires GoodOptions(options) && Accept(Choice(options, underscores), text, directories).Some?
    ensures var v := Accept(Choice(options, underscores), text, directories).value;
      v.ChoiceValue? && v.option < |options| && Spells(Strip(text), options[v.option], underscores)
  {
    hide Strip, Find;
    var t := Strip(ToLower(text));
    FindBounds(options, if underscores then Underscored(t) else t, 0);
    LowerStrip(text);
  }

  lemma {:induction false} LowerStrip(s: string)
    ensures Strip(ToLower(s)) == ToLower(Strip(s))
  {
    hide StripLeft, StripRight;
    var l := StripLeft(s);
    var t := StripRight(l);
    var a, b := s[..|s| - |l|], l[|t|..];
    assert s == a + t + b;
    assert Tight(t) by { if t != "" { assert t[0] == l[0]; } }
    LowerPadded(a, t, b);
    StripPadded(a, ToLower(t), b);
  }

  // ---------------------------------------------------------------- any string

  /** A setter stores only values of its attribute's type, within its limits. */
  lemma {:induction false} AcceptedFits(f: Field, text: string, directories: set<string>)
    requires f < FIELDS && Accept(KindOf(f), text, directories).Some?
    ensures var kind, v := KindOf(f), Accept(KindOf(f), text, directories).value;
      && Fits(kind, v) && (kind.PortNumber? ==> v.number > 0) && (kind.Choice? ==> v.option < |kind.options|)
      && (kind.Directory? ==> v.text in directories)
  {
    hide KindOf, DecimalValue, ToLower, ParseAddress, Strip, Underscored;
    KindsAreGood(f);
    match KindOf(f) {
      case Choice(options, underscores) =>
        var t := Strip(ToLower(text));
        FindBounds(options, if underscores then Underscored(t) else t, 0);
      case _ =>
    }
  }

  lemma {:induction false} SegmentFits(cfg: Settings, segment: string, directories: set<string>)
    requires WellTyped(cfg)
    ensures WellTyped(HandleSegment(cfg, segment, directories))
  {
    hide Accept, KindOf, FieldOf, ToLower, Strip, Unwrapped, Fits;
    var eq := LastIndex(segment, '=');
    if eq > 0 {
      var key, text := ToLower(Strip(segment[..eq])), Unwrapped(segment[eq + 1..]);
      FieldInTable(key);
      PortFits(text);
      if FieldOf(key).Some? && Accept(KindOf(FieldOf(key).value), text, directories).Some? {
        AcceptedFits(FieldOf(key).value, text, directories);
      }
    }
  }

  lemma {:induction false} PortFits(text: string)
    ensures PORT < FIELDS && Fits(KindOf(PORT), NumberValue(ParseAddress(text).1))
  {
    hide CountOf, FirstIndex, ParsePortRange;
  }

  lemma {:induction false} SegmentsFit(cfg: Settings, segments: seq<string>, directories: set<string>)
    requires WellTyped(cfg)
    ensures WellTyped(HandleSegments(cfg, segments, directories))
    decreases |segments|
  {
    hide WellTyped, HandleSegment;
    if |segments| == 0 {
    } else {
      var last, front := segments[|segments| - 1], segments[..|segments| - 1];
      SegmentFits(cfg, last, directories);
      SegmentsFit(HandleSegment(cfg, last, directories), front, directories);
    }
  }

  /** Whatever the string, every attribute holds a value of its type. */
  lemma {:induction false} ParsedFits(cfg: Settings, s: string, delimiter: char, directories: set<string>)
    requires WellTyped(cfg)
    ensures WellTyped(Parsed(cfg, s, delimiter, directories))
  {
    hide WellTyped, HandleSegments, Split;
    SegmentsFit(cfg, Split(WithoutTrailingZeros(s), delimiter), directories);
  }
}
