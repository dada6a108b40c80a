/** When parsing undoes printing: for which configurations a connection string is lossless. */
module ConnectionRoundTrip {
  import opened Common
  import opened TextTools
  import opened ConnectionStrings

  // ---------------------------------------------------------------- the key table

  /** a comes before b, as the first difference at i shows. */
  predicate LessAt(a: string, b: string, i: nat) {
    i <= |a| && i < |b| && a[..i] == b[..i] && (i == |a| || a[i] < b[i])
  }

  /** The order of an ordered map with string keys. */
  ghost predicate Less(a: string, b: string) {
    exists i: nat :: LessAt(a, b, i)
  }

  lemma {:induction false} LessTransitive(a: string, b: string, c: string)
    requires Less(a, b) && Less(b, c)
    ensures Less(a, c)
  {
    var i: nat :| LessAt(a, b, i);
    var j: nat :| LessAt(b, c, j);
    var k := if i <= j then i else j;
    assert a[..k] == c[..k] by {
      assert a[..k] == a[..i][..k] && b[..k] == b[..i][..k] && b[..k] == b[..j][..k] && c[..k] == c[..j][..k];
    }
    if i < j { assert b[i] == b[..j][i] == c[..j][i] == c[i]; }
    if j < i { assert a[j] == a[..i][j] == b[..i][j] == b[j]; }
    assert LessAt(a, c, k);
  }

  lemma {:induction false} LessIrreflexive(a: string)
    ensures !Less(a, a)
  {}

  /** The first difference between each key and the next one. */
  function DifferAt(f: nat): nat
    requires f + 1 < FIELDS
  {
    [0, 1, 1, 1, 0, 0, 4, 3, 0, 1, 0, 2, 2, 2, 0, 5, 2, 1, 4, 4, 4, 16, 4, 4, 0, 3, 4, 0][f]
  }

  lemma {:induction false} NextKeyA(f: nat)
    requires 0 <= f < 10
    ensures LessAt(KEYS[f], KEYS[f + 1], DifferAt(f))
  {}

  lemma {:induction false} NextKeyB(f: nat)
    requires 10 <= f < 20
    ensures LessAt(KEYS[f], KEYS[f + 1], DifferAt(f))
  {}

  lemma {:induction false} NextKeyC(f: nat)
    requires 20 <= f < 28
    ensures LessAt(KEYS[f], KEYS[f + 1], DifferAt(f))
  {}

  /** Each key comes before the next one. */
  lemma {:induction false} NextKey(f: nat)
    requires f + 1 < FIELDS
    ensures |KEYS| == FIELDS && Less(KEYS[f], KEYS[f + 1])
  {
    hide LessAt, DifferAt;
    if f < 10 { NextKeyA(f); } else if f < 20 { NextKeyB(f); } else { NextKeyC(f); }
  }

  lemma {:induction false} KeysInOrder(f: nat, g: nat)
    requires f < g < FIELDS
    ensures |KEYS| == FIELDS && Less(KEYS[f], KEYS[g]) && KEYS[f] != KEYS[g]
    decreases g
  {
    hide Less, KEYS;
    NextKey(g - 1);
    if f == g - 1 {
    } else {
      KeysInOrder(f, g - 1);
      LessTransitive(KEYS[f], KEYS[g - 1], KEYS[g]);
    }
    LessIrreflexive(KEYS[f]);
  }

  /** Letters and underscores only: nothing that lowering, stripping or cutting would change. */
  predicate PlainName(s: string) {
    s != "" && forall i :: 0 <= i < |s| ==> 'a' <= s[i] <= 'z' || s[i] == '_'
  }

  lemma {:induction false} PlainNameFixed(s: string)
    requires PlainName(s)
    ensures ToLower(s) == s && Strip(s) == s && Underscored(s) == s && Unwrapped(s) == s && Wrapped(s) == s
    ensures s != "" && ';' !in s && '=' !in s
  {
    StripTight(s);
  }

  lemma {:induction false} PlainKeyA(f: nat)
    requires 0 <= f < 7
    ensures PlainName(KEYS[f])
  {}

  lemma {:induction false} PlainKeyB(f: nat)
    requires 7 <= f < 13
    ensures PlainName(KEYS[f])
  {}

  lemma {:induction false} PlainKeyC(f: nat)
    requires 13 <= f < 19
    ensures PlainName(KEYS[f])
  {}

  lemma {:induction false} PlainKeyD(f: nat)
    requires 19 <= f < 24
    ensures PlainName(KEYS[f])
  {}

  lemma {:induction false} PlainKeyE(f: nat)
    requires 24 <= f < 29
    ensures PlainName(KEYS[f])
  {}

  lemma {:induction false} KeyIsPlain(f: nat)
    requires f < FIELDS
    ensures |KEYS| == FIELDS && PlainName(KEYS[f]) && KEYS[f] != "uid" && KEYS[f] != "pwd"
  {
    hide PlainName;
    if f < 7 { PlainKeyA(f); }
    else if f < 13 { PlainKeyB(f); }
    else if f < 19 { PlainKeyC(f); }
    else if f < 24 { PlainKeyD(f); }
    else { PlainKeyE(f); }
    if |KEYS[f]| == 3 { assert KEYS[f][0] == 'd' || KEYS[f][0] == 't'; }
  }

  lemma {:induction false} FindKey(f: nat, i: nat)
    requires i <= f < FIELDS
    ensures |KEYS| == FIELDS && Find(KEYS, KEYS[f], i) == Some(f)
    decreases f - i
  {
    hide PlainName, Less;
    KeyIsPlain(f);
    if i == f {
    } else {
      KeysInOrder(i, f);
      FindKey(f, i + 1);
    }
  }

  lemma {:induction false} KeyFound(f: nat)
    requires f < FIELDS
    ensures |KEYS| == FIELDS && FieldOf(KEYS[f]) == Some(f)
  {
    KeyIsPlain(f);
    FindKey(f, 0);
  }

  /** Options are plain, distinct, and none of them is the text of an unknown option. */
  ghost predicate GoodOptions(options: seq<string>) {
    (forall i :: 0 <= i < |options| ==> PlainName(options[i]) && options[i] != "unknown")
    && forall i, j :: 0 <= i < j < |options| ==> options[i] != options[j]
  }

  lemma {:induction false} LogLevelsGood()
    ensures GoodOptions(LOG_LEVELS)
  {
    assert LOG_LEVELS[0][0] == 'd' && LOG_LEVELS[1][0] == 'i' && LOG_LEVELS[2][0] == 'e' && LOG_LEVELS[3][0] == 'o';
  }

  lemma {:induction false} ReadPreferencePlain(i: nat)
    requires i < |READ_PREFERENCES|
    ensures PlainName(READ_PREFERENCES[i])
  {}

  lemma {:induction false} ReadPreferencesGood()
    ensures GoodOptions(READ_PREFERENCES)
  {
    hide PlainName;
    forall i | 0 <= i < |READ_PREFERENCES| ensures PlainName(READ_PREFERENCES[i]) { ReadPreferencePlain(i); }
    assert |READ_PREFERENCES[0]| == 7 && |READ_PREFERENCES[1]| == 17 && |READ_PREFERENCES[2]| == 9
      && |READ_PREFERENCES[3]| == 19 && |READ_PREFERENCES[4]| == 7;
    assert READ_PREFERENCES[0][0] == 'p' && READ_PREFERENCES[4][0] == 'n' && "unknown"[0] == 'u';
  }

  lemma {:induction false} ScanMethodsGood()
    ensures GoodOptions(SCAN_METHODS)
  {
    assert SCAN_METHODS[0][0] == 'r' && SCAN_METHODS[1][3] == 'f'
      && SCAN_METHODS[2][3] == 'r' && SCAN_METHODS[3][0] == 'a';
  }

  lemma {:induction false} FindOption(options: seq<string>, k: nat, i: nat)
    requires GoodOptions(options) && i <= k < |options|
    ensures Find(options, options[k], i) == Some(k)
    decreases k - i
  {
    if i == k {
    } else {
      FindOption(options, k, i + 1);
    }
  }

  lemma {:induction false} ChoiceRead(options: seq<string>, underscores: bool, k: nat)
    requires GoodOptions(options)
    ensures k < |options| ==> ReadChoice(options, underscores, options[k]) == Some(k)
    ensures ReadChoice(options, underscores, "unknown") == None
  {
    hide Strip, ToLower, Underscored;
    PlainNameFixed("unknown");
    FindBounds(options, "unknown", 0);
    if k < |options| {
      PlainNameFixed(options[k]);
      FindOption(options, k, 0);
    }
  }

  lemma {:induction false} KindsAreGood(f: Field)
    requires f < FIELDS
    ensures match KindOf(f)
      case Choice(options, _) => GoodOptions(options)
      case Count(least) => least == 0 || least == 1
      case _ => true
    ensures (KindOf(f).Host? <==> f == HOSTNAME) && (KindOf(f).PortNumber? <==> f == PORT)
  {
    hide GoodOptions;
    LogLevelsGood();
    ReadPreferencesGood();
    ScanMethodsGood();
  }

  // ---------------------------------------------------------------- which values survive

  /** The type of each field. A choice outside its options is the source's unknown value. */
  predicate Fits(kind: Kind, v: Value) {
    match kind
    case PortNumber => v.NumberValue? && 0 <= v.number <= 0xFFFF
    case Count(_) => v.NumberValue? && -0x8000_0000 <= v.number < 0x8000_0000
    case Flag => v.FlagValue?
    case Choice(_, _) => v.ChoiceValue?
    case _ => v.TextValue?
  }

  predicate WellTyped(c: Settings) {
    forall f :: f in c ==> f < FIELDS && Fits(KindOf(f), c[f])
  }

  predicate Clean(t: string) { ';' !in t && '=' !in t }

  /** Text that its braces protect, or that needs no protection. */
  predicate Protected(t: string) {
    ' ' in t || (Tight(t) && (t == "" || t[0] != '{' || t[|t| - 1] != '}'))
  }

  predicate Survives(t: string) { t != "" && Clean(t) && Protected(t) }

  /** A value that can be read back from what is printed for it. */
  predicate Printable(kind: Kind, v: Value, directories: set<string>)
    requires Fits(kind, v)
  {
    match kind
    case Text => Survives(v.text)
    case Host => Survives(v.text) && ':' !in v.text
    case Directory => Survives(v.text) && v.text in directories
    case PortNumber => v.number > 0
    case Count(least) => v.number >= least
    case Flag => true
    case Choice(options, _) => v.option < |options|
  }

  lemma {:induction false} StripShorter(s: string)
    ensures Strip(s) == s || |Strip(s)| < |s|
  {
    if |s| > 0 && IsSpace(s[0]) { assert |StripLeft(s[1..])| < |s|; }
  }

  /** What the printer's braces and the parser's unwrapping do to a text. */
  lemma {:induction false} WrapUnwrap(t: string)
    ensures Unwrapped(Wrapped(t)) == t <==> Protected(t)
    ensures Unwrapped(Wrapped(t)) == t || |Unwrapped(Wrapped(t))| < |t|
    ensures Clean(t) ==> Clean(Wrapped(t))
  {
    hide Strip;
    var w := Wrapped(t);
    StripTight(w);
    if ' ' in t {
      assert w[1..|w| - 1] == t;
    } else {
      StripTight(t);
      StripShorter(t);
    }
  }

  lemma {:induction false} NoColon(s: string)
    ensures CountOf(s, ':') == 0 <==> ':' !in s
  {
    if |s| == 0 {
    } else {
      NoColon(s[..|s| - 1]);
      assert s == s[..|s| - 1] + [s[|s| - 1]];
    }
  }

  /** The host part of an address is all of it exactly when there is no colon. */
  lemma {:induction false} HostOf(u: string, t: string)
    requires t != "" && |u| <= |t| && (u == t || |u| < |t|)
    ensures ParseAddress(u).0 == t <==> u == t && ':' !in t
    ensures ':' !in u ==> ParseAddress(u).1 == DEFAULT_PORT
  {
    NoColon(u);
  }

  lemma {:induction false} DigitsPlain(s: string)
    requires s != "" && AllDigits(s)
    ensures Clean(s) && Protected(s) && Clean("-" + s) && Protected("-" + s)
  {}

  lemma {:induction false} NumberRead(n: int, least: int)
    requires -0x8000_0000 <= n < 0x8000_0000 && (least == 0 || least == 1)
    ensures Show(n) != "" && Clean(Show(n))
    ensures Accept(Count(least), Unwrapped(Wrapped(Show(n))), {}) == if n >= least then Some(NumberValue(n)) else None
    ensures 0 <= n <= 0xFFFF ==>
      Accept(PortNumber, Unwrapped(Wrapped(Show(n))), {}) == if n > 0 then Some(NumberValue(n)) else None
  {
    hide Unwrapped, Wrapped, ShowNat, DecimalValue;
    var digits := ShowNat(if n < 0 then -n else n);
    DigitsPlain(digits);
    WrapUnwrap(Show(n));
    if n < 0 {
      assert Show(n)[0] == '-';
    } else {
      ReadShown(n);
      ShownShort(n);
    }
  }

  /** The option's text, or "unknown". */
  lemma {:induction false} OptionText(options: seq<string>, underscores: bool, k: nat)
    requires GoodOptions(options)
    ensures var t := Shown(Choice(options, underscores), ChoiceValue(k));
      t != "" && Clean(t) && Unwrapped(Wrapped(t)) == t
      && ReadChoice(options, underscores, t) == if k < |options| then Some(k) else None
  {
    hide Strip, ToLower, Underscored, Unwrapped, Wrapped, ReadChoice;
    ChoiceRead(options, underscores, k);
    if k < |options| { PlainNameFixed(options[k]); } else { PlainNameFixed("unknown"); }
  }

  lemma {:induction false} FlagText(b: bool)
    ensures var t := if b then "true" else "false";
      t != "" && Clean(t) && Accept(Flag, Unwrapped(Wrapped(t)), {}) == Some(FlagValue(b))
  {
    hide Strip, ToLower, Unwrapped, Wrapped;
    PlainNameFixed("true");
    PlainNameFixed("false");
    assert "true"[0] != "false"[0];
  }

  /** What is not text never needs protection. */
  lemma {:induction false} OnlyTextIsUnclean(f: Field, v: Value)
    requires f < FIELDS && Fits(KindOf(f), v) && !v.TextValue?
    ensures Shown(KindOf(f), v) != "" && Clean(Shown(KindOf(f), v))
  {
    hide Show, Clean, KindOf, GoodOptions;
    KindsAreGood(f);
    match KindOf(f) {
      case PortNumber => NumberRead(v.number, 0);
      case Count(least) => NumberRead(v.number, least);
      case Flag => FlagText(v.flag);
      case Choice(options, underscores) => OptionText(options, underscores, v.option);
      case _ =>
    }
  }

  /** A value comes back from its own text exactly when it is printable. */
  lemma {:induction false} ValueRoundTrip(f: Field, v: Value, directories: set<string>)
    requires f < FIELDS && Fits(KindOf(f), v) && Clean(Shown(KindOf(f), v))
    ensures var t := Shown(KindOf(f), v);
      (t != "" && Accept(KindOf(f), Unwrapped(Wrapped(t)), directories) == Some(v))
      <==> Printable(KindOf(f), v, directories)
  {
    hide Show, Clean, KindOf, GoodOptions, Unwrapped, Wrapped, Protected;
    hide ParseAddress, ReadChoice, DecimalValue, ToLower;
    KindsAreGood(f);
    var t := Shown(KindOf(f), v);
    WrapUnwrap(t);
    match KindOf(f) {
      case PortNumber => NumberRead(v.number, 0);
      case Count(least) => NumberRead(v.number, least);
      case Flag => FlagText(v.flag);
      case Choice(options, underscores) => OptionText(options, underscores, v.option);
      case Host => if t != "" { HostOf(Unwrapped(Wrapped(t)), t); }
      case Text =>
      case Directory =>
    }
  }

  // ---------------------------------------------------------------- the printed string, segment by segment

  /** The settings that reading the printed fields below n gives, the last of them first. */
  function Collected(cfg: Settings, c: Settings, n: nat, directories: set<string>): Settings
    requires n <= FIELDS
    decreases n
  {
    if n == 0 then cfg else Collected(Read(cfg, c, n - 1, directories), c, n - 1, directories)
  }

  function Read(cfg: Settings, c: Settings, f: Field, directories: set<string>): Settings
    requires f < FIELDS
  {
    if f !in c || Shown(KindOf(f), c[f]) == "" then cfg
    else Set(cfg, f, Unwrapped(Wrapped(Shown(KindOf(f), c[f]))), directories)
  }

  ghost predicate CleanSettings(c: Settings) {
    forall f :: f in c && f < FIELDS ==> Clean(Shown(KindOf(f), c[f]))
  }

  lemma {:induction false} PairIsRead(cfg: Settings, c: Settings, f: Field, directories: set<string>)
    requires f < FIELDS && f in c && Shown(KindOf(f), c[f]) != "" && Clean(Shown(KindOf(f), c[f]))
    ensures HandleSegment(cfg, Pair(c, f), directories) == Read(cfg, c, f, directories)
    ensures ';' !in Pair(c, f) && Pair(c, f) != ""
  {
    hide Set, Unwrapped, Wrapped, Shown, KindOf, Strip, ToLower, FieldOf, PlainName, KEYS;
    KeyIsPlain(f);
    KeyFound(f);
    var key, text := KEYS[f], Wrapped(Shown(KindOf(f), c[f]));
    WrapUnwrap(Shown(KindOf(f), c[f]));
    PlainNameFixed(key);
    var pair := key + "=" + text;
    LastIndexIs(pair, '=', |key|);
    assert pair[..|key|] == key && pair[|key| + 1..] == text;
    assert Pair(c, f) == pair && ';' !in pair;
  }

  predicate Ended(p: string) { p == "" || p[|p| - 1] == ';' }

  lemma {:induction false} EndedSplit(cfg: Settings, p: string, directories: set<string>)
    requires p != "" && Ended(p)
    ensures HandleSegments(cfg, Split(p, ';'), directories)
         == HandleSegments(cfg, Split(p[..|p| - 1], ';'), directories)
  {
    hide HandleSegments, Split, HandlePair;
    SplitStep(cfg, p, ';', directories);
    LastIndexIs(p, ';', |p| - 1);
    assert p[|p|..] == "";
  }

  /** A last segment, with its delimiter, is handled before all the others. */
  lemma {:induction false} SplitAppend(cfg: Settings, p: string, segment: string, directories: set<string>)
    requires Ended(p) && ';' !in segment
    ensures HandleSegments(cfg, Split(p + (segment + ";"), ';'), directories)
         == HandleSegments(HandleSegment(cfg, segment, directories), Split(p, ';'), directories)
  {
    hide HandleSegments, Split, HandleSegment;
    var s, next := p + segment, HandleSegment(cfg, segment, directories);
    assert p + (segment + ";") == s + ";" && (s + ";")[..|s|] == s;
    EndedSplit(cfg, s + ";", directories);
    SplitStep(cfg, s, ';', directories);
    LastIndexIs(s, ';', |p| - 1);
    assert s[|p|..] == segment;
    if p == "" {
      assert s == segment;
      EmptySplit(next, ';', directories);
    } else {
      assert s[..|p| - 1] == p[..|p| - 1];
      EndedSplit(next, p, directories);
    }
  }

  lemma {:induction false} PrintedIsCollected(cfg: Settings, c: Settings, n: nat, directories: set<string>)
    requires n <= FIELDS && CleanSettings(c)
    ensures Ended(Printed(c, n))
    ensures HandleSegments(cfg, Split(Printed(c, n), ';'), directories) == Collected(cfg, c, n, directories)
    decreases n
  {
    hide HandleSegments, Split, HandleSegment, Read, Pair, Clean, KindOf, Shown;
    if n == 0 {
      EmptySplit(cfg, ';', directories);
    } else {
      var f := n - 1;
      var next := Read(cfg, c, f, directories);
      PrintedIsCollected(next, c, f, directories);
      if f in c && Shown(KindOf(f), c[f]) != "" {
        PairIsRead(cfg, c, f, directories);
        SplitAppend(cfg, Printed(c, f), Pair(c, f), directories);
      } else {
        assert Item(c, f) == "" && Printed(c, n) == Printed(c, f);
        assert next == cfg by { SkippedRead(cfg, c, f, directories); }
      }
    }
  }

  lemma {:induction false} SkippedRead(cfg: Settings, c: Settings, f: Field, directories: set<string>)
    requires f < FIELDS && (f !in c || Shown(KindOf(f), c[f]) == "")
    ensures Read(cfg, c, f, directories) == cfg
  {}

  /** Without a delimiter or '=' in its values, a printed configuration is read field by field. */
  lemma {:induction false} ParsedIsCollected(c: Settings, directories: set<string>)
    requires CleanSettings(c)
    ensures Parsed(map[], Printed(c, FIELDS), ';', directories) == Collected(map[], c, FIELDS, directories)
  {
    hide HandleSegments, Split, Printed, Collected, CleanSettings;
    PrintedIsCollected(map[], c, FIELDS, directories);
  }

  // ---------------------------------------------------------------- the round trip

  /** A hostname without a port comes back with the default port. */
  predicate GainsPort(c: Settings) { HOSTNAME in c && PORT !in c }

  function Expected(c: Settings): Settings {
    if GainsPort(c) then c[PORT := NumberValue(DEFAULT_PORT)] else c
  }

  /** What has been read back once the fields below n are left. */
  function Partial(c: Settings, n: nat): Settings {
    var read := map f | f in c && f >= n :: c[f];
    if GainsPort(c) && n <= HOSTNAME then read[PORT := NumberValue(DEFAULT_PORT)] else read
  }

  ghost predicate AllPrintable(c: Settings, directories: set<string>)
    requires WellTyped(c)
  {
    forall f :: f in c ==> Printable(KindOf(f), c[f], directories)
  }

  lemma {:induction false} PrintableIsClean(f: Field, v: Value, directories: set<string>)
    requires f < FIELDS && Fits(KindOf(f), v) && Printable(KindOf(f), v, directories)
    ensures Clean(Shown(KindOf(f), v))
  {
    hide Show, KindOf;
    if !v.TextValue? { OnlyTextIsUnclean(f, v); }
  }

  lemma {:induction false} ReadPrintable(c: Settings, f: Field, directories: set<string>)
    requires f < FIELDS && WellTyped(c) && AllPrintable(c, directories)
    ensures Read(Partial(c, f + 1), c, f, directories) == Partial(c, f)
  {
    hide Accept, Shown, Unwrapped, Wrapped, KindOf, ParseAddress, Clean, Fits, Printable;
    if f in c {
      var t := Shown(KindOf(f), c[f]);
      PrintableIsClean(f, c[f], directories);
      ValueRoundTrip(f, c[f], directories);
      if f == HOSTNAME { HostPort(c, directories); }
    }
  }

  lemma {:induction false} HostPort(c: Settings, directories: set<string>)
    requires WellTyped(c) && HOSTNAME in c && Printable(KindOf(HOSTNAME), c[HOSTNAME], directories)
    ensures ParseAddress(Unwrapped(Wrapped(Shown(KindOf(HOSTNAME), c[HOSTNAME])))).1 == DEFAULT_PORT
  {
    hide Unwrapped, Wrapped, ParseAddress, Protected;
    var t := c[HOSTNAME].text;
    WrapUnwrap(t);
    HostOf(t, t);
  }

  lemma {:induction false} CollectPrintable(c: Settings, n: nat, directories: set<string>)
    requires n <= FIELDS && WellTyped(c) && AllPrintable(c, directories)
    ensures Collected(Partial(c, n), c, n, directories) == Partial(c, 0)
    decreases n
  {
    hide Read, Partial, AllPrintable, WellTyped;
    if n == 0 {
    } else {
      ReadPrintable(c, n - 1, directories);
      CollectPrintable(c, n - 1, directories);
    }
  }

  lemma {:induction false} PartialEnds(c: Settings)
    requires WellTyped(c)
    ensures Partial(c, FIELDS) == map[] && Partial(c, 0) == Expected(c)
  {
    hide Fits, KindOf;
  }

  /** Printable settings come back. */
  lemma {:induction false} PrintableComesBack(c: Settings, directories: set<string>)
    requires WellTyped(c) && AllPrintable(c, directories)
    ensures Parsed(map[], Printed(c, FIELDS), ';', directories) == Expected(c)
  {
    hide Parsed, Printed, Collected, Partial, Expected, Printable, Clean, Shown, KindOf, Fits;
    forall f | f in c && f < FIELDS ensures Clean(Shown(KindOf(f), c[f])) {
      PrintableIsClean(f, c[f], directories);
    }
    ParsedIsCollected(c, directories);
    CollectPrintable(c, FIELDS, directories);
    PartialEnds(c);
  }

  // ---------------------------------------------------------------- what does not come back

  /** Reading sets a field other than the port to what its own text says, or leaves it. */
  lemma {:induction false} ReadLookup(cfg: Settings, c: Settings, g: Field, f: Field, directories: set<string>)
    requires g < FIELDS && f < FIELDS && f != PORT
    ensures g != f ==> Lookup(Read(cfg, c, g, directories), f) == Lookup(cfg, f)
    ensures Lookup(Read(cfg, c, f, directories), f) ==
      if f !in c || Shown(KindOf(f), c[f]) == "" then Lookup(cfg, f)
      else
        var accepted := Accept(KindOf(f), Unwrapped(Wrapped(Shown(KindOf(f), c[f]))), directories);
        if accepted.Some? then accepted else Lookup(cfg, f)
  {
    hide Accept, Shown, Unwrapped, Wrapped, KindOf, ParseAddress;
  }

  /** A field that is not printable does not come back with its value. */
  lemma {:induction false} FieldIsLost(cfg: Settings, c: Settings, f: Field, n: nat, directories: set<string>)
    requires f in c && f < FIELDS && f != PORT && n <= FIELDS && Fits(KindOf(f), c[f])
    requires Clean(Shown(KindOf(f), c[f])) && !Printable(KindOf(f), c[f], directories)
    requires Lookup(cfg, f) != Some(c[f])
    ensures Lookup(Collected(cfg, c, n, directories), f) != Some(c[f])
    decreases n
  {
    hide Accept, Shown, Unwrapped, Wrapped, KindOf, ParseAddress, Read, Clean, Printable, Fits;
    if n == 0 {
    } else {
      ReadLookup(cfg, c, n - 1, f, directories);
      ValueRoundTrip(f, c[f], directories);
      FieldIsLost(Read(cfg, c, n - 1, directories), c, f, n - 1, directories);
    }
  }

  /** Port zero never comes back, with a hostname that is printable or not set. */
  lemma {:induction false} PortZeroIsLost(cfg: Settings, c: Settings, n: nat, directories: set<string>)
    requires WellTyped(c) && n <= FIELDS && Lookup(cfg, PORT) != Some(NumberValue(0))
    requires HOSTNAME in c ==> Printable(KindOf(HOSTNAME), c[HOSTNAME], directories)
    ensures Lookup(Collected(cfg, c, n, directories), PORT) != Some(NumberValue(0))
    decreases n
  {
    hide Shown, Unwrapped, Wrapped, KindOf, ParseAddress, Clean, Printable, Fits, DecimalValue;
    if n == 0 {
    } else {
      var f := n - 1;
      KindsAreGood(f);
      if f == HOSTNAME && HOSTNAME in c { HostPort(c, directories); }
      PortZeroIsLost(Read(cfg, c, f, directories), c, f, directories);
    }
  }

  lemma {:induction false} AcceptedText(kind: Kind, text: string, directories: set<string>)
    requires Clean(text)
    ensures var v := Accept(kind, text, directories); v.Some? && v.value.TextValue? ==> Clean(v.value.text)
  {
    hide DecimalValue, ReadChoice, ToLower;
  }

  lemma {:induction false} UnwrappedClean(s: string)
    requires Clean(s)
    ensures Clean(Unwrapped(s))
  {
    hide Strip;
  }

  /** No text that is read holds a delimiter or '='. */
  lemma {:induction false} SaidIsClean(segments: seq<string>, f: Field, directories: set<string>)
    requires f < FIELDS && forall i :: 0 <= i < |segments| ==> ';' !in segments[i]
    ensures var v := Leftmost(segments, f, directories); v.Some? && v.value.TextValue? ==> Clean(v.value.text)
    decreases |segments|
  {
    hide Accept, Unwrapped, KindOf, Strip, ToLower, FieldOf;
    if |segments| == 0 {
    } else {
      SaidIsClean(segments[..|segments| - 1], f, directories);
      var last := segments[|segments| - 1];
      var eq := LastIndex(last, '=');
      if eq > 0 {
        UnwrappedClean(last[eq + 1..]);
        AcceptedText(KindOf(f), Unwrapped(last[eq + 1..]), directories);
      }
    }
  }

  lemma {:induction false} ParsedTextIsClean(s: string, f: Field, directories: set<string>)
    requires f < FIELDS && f != PORT
    ensures var v := Lookup(Parsed(map[], s, ';', directories), f);
      v.Some? && v.value.TextValue? ==> Clean(v.value.text)
  {
    hide Split, HandleSegments, Leftmost, Clean;
    var segments := Split(WithoutTrailingZeros(s), ';');
    SplitJoin(WithoutTrailingZeros(s), ';');
    SaidIsClean(segments, f, directories);
    LeftmostWins(map[], segments, f, directories);
  }

  lemma {:induction false} ExpectedKeeps(c: Settings, f: Field)
    requires f in c
    ensures Lookup(Expected(c), f) == Some(c[f])
  {}

  lemma {:induction false} UnprintableIsLost(c: Settings, directories: set<string>)
    requires WellTyped(c) && !AllPrintable(c, directories)
    ensures Parsed(map[], Printed(c, FIELDS), ';', directories) != Expected(c)
  {
    hide Parsed, Printed, Collected, Expected, Printable, Clean, Shown, KindOf, Fits;
    if f :| f in c && !Clean(Shown(KindOf(f), c[f])) {
      UncleanIsLost(c, f, directories);
    } else {
      ParsedIsCollected(c, directories);
      if f :| f in c && f != PORT && !Printable(KindOf(f), c[f], directories) {
        FieldIsLost(map[], c, f, FIELDS, directories);
        ExpectedKeeps(c, f);
      } else {
        assert PORT in c && !Printable(KindOf(PORT), c[PORT], directories);
        assert c[PORT] == NumberValue(0) by { PortZero(c, directories); }
        PortZeroIsLost(map[], c, FIELDS, directories);
        ExpectedKeeps(c, PORT);
      }
    }
  }

  lemma {:induction false} PortZero(c: Settings, directories: set<string>)
    requires WellTyped(c) && PORT in c && !Printable(KindOf(PORT), c[PORT], directories)
    ensures c[PORT] == NumberValue(0)
  {}

  lemma {:induction false} UncleanIsLost(c: Settings, f: Field, directories: set<string>)
    requires WellTyped(c) && f in c && !Clean(Shown(KindOf(f), c[f]))
    ensures Parsed(map[], Printed(c, FIELDS), ';', directories) != Expected(c)
  {
    hide Parsed, Printed, Expected, Clean, KindOf, Fits, Show;
    if !c[f].TextValue? { OnlyTextIsUnclean(f, c[f]); }
    assert f != PORT by { TextIsNotPort(c, f); }
    ParsedTextIsClean(Printed(c, FIELDS), f, directories);
    ExpectedKeeps(c, f);
  }

  lemma {:induction false} TextIsNotPort(c: Settings, f: Field)
    requires WellTyped(c) && f in c && c[f].TextValue?
    ensures f != PORT
  {}

  /** Parsing undoes printing, up to a default port, exactly for the printable configurations. */
  lemma {:induction false} RoundTrip(c: Settings, directories: set<string>)
    requires WellTyped(c)
    ensures Parsed(map[], Printed(c, FIELDS), ';', directories) == Expected(c) <==> AllPrintable(c, directories)
  {
    hide Parsed, Printed, Expected, AllPrintable, WellTyped;
    if AllPrintable(c, directories) { PrintableComesBack(c, directories); } else { UnprintableIsLost(c, directories); }
  }
}
