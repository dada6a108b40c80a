/**
 Connection strings: `ConnectionStringParser`, `Configuration::ToConnectString` and the address
 parser of the hostname key (src/config). A configuration's settable values are one map; a value
 that is not set is not in it.
 */
module ConnectionStrings {
  import opened Common
  import opened TextTools

  // ---------------------------------------------------------------- the attributes

  /** How the setter of an attribute reads its text. */
  datatype Kind =
    | Text
    | Host
    | PortNumber
    | Count(least: int)
    | Flag
    | Choice(options: seq<string>, underscores: bool)
    | Directory

  datatype Value = TextValue(text: string) | NumberValue(number: int) | FlagValue(flag: bool) | ChoiceValue(option: nat)

  /** An attribute, by its place among the keys in alphabetical order. */
  type Field = nat
  type Settings = map<Field, Value>

  const KEYS: seq<string> := [
    "app_name", "database", "default_fetch_size", "driver", "dsn", "hostname", "log_level", "log_path",
    "login_timeout_sec", "password", "port", "read_preference", "refresh_schema", "replica_set", "retry_reads",
    "scan_limit", "scan_method", "schema_name", "ssh_enable", "ssh_host", "ssh_known_hosts_file",
    "ssh_private_key_file", "ssh_private_key_passphrase", "ssh_strict_host_key_checking", "ssh_user", "tls",
    "tls_allow_invalid_hostnames", "tls_ca_file", "user"]

  const FIELDS: nat := 29
  const HOSTNAME: Field := 5
  const PASSWORD: Field := 9
  const PORT: Field := 10
  const USER: Field := 28

  const LOG_LEVELS: seq<string> := ["debug", "info", "error", "off"]
  const READ_PREFERENCES: seq<string> :=
    ["primary", "primary_preferred", "secondary", "secondary_preferred", "nearest"]
  const SCAN_METHODS: seq<string> := ["random", "id_forward", "id_reverse", "all"]

  function KindOf(f: Field): Kind
    requires f < FIELDS
  {
    [Text, Text, Count(1), Text, Text, Host, Choice(LOG_LEVELS, false), Directory,
     Count(0), Text, PortNumber, Choice(READ_PREFERENCES, true), Flag, Text, Flag,
     Count(1), Choice(SCAN_METHODS, true), Text, Flag, Text, Text,
     Text, Text, Flag, Text, Flag,
     Flag, Text, Text][f]
  }

  function Find(names: seq<string>, s: string, i: nat): Option<nat>
    requires i <= |names|
    decreases |names| - i
  {
    if i == |names| then None else if names[i] == s then Some(i) else Find(names, s, i + 1)
  }

  /** The attribute of a lower-case key, with the two short forms. */
  function FieldOf(key: string): Option<Field> {
    if key == "uid" then Some(USER) else if key == "pwd" then Some(PASSWORD) else Find(KEYS, key, 0)
  }

  // ---------------------------------------------------------------- addresses

  const DEFAULT_PORT := 27017

  function CountOf(s: string, c: char): nat {
    if |s| == 0 then 0 else CountOf(s[..|s| - 1], c) + if s[|s| - 1] == c then 1 else 0
  }

  function FirstIndex(s: string, c: char): (i: nat)
    ensures i <= |s| && (i < |s| ==> s[i] == c) && forall k :: 0 <= k < i ==> s[k] != c
  {
    if |s| == 0 || s[0] == c then 0 else 1 + FirstIndex(s[1..], c)
  }

  /** `ParsePort`: zero when the text is not a port. */
  function ParsePort(value: string): (p: nat)
    ensures p <= 0xFFFF
  {
    var port := Strip(value);
    if !AllDigits(port) || |port| >= 6 then 0
    else if DecimalValue(port) <= 0xFFFF then DecimalValue(port) else 0
  }

  /** `ParsePortRange`: the port it leaves behind, zero when it fails before setting one. */
  function ParsePortRange(value: string): (p: nat)
    ensures p <= 0xFFFF
  {
    var sep := FirstIndex(value, '.');
    if sep == |value| then ParsePort(value)
    else if sep + 2 > |value| || value[sep + 1] != '.' then 0
    else
      var first, last := ParsePort(value[..sep]), ParsePort(value[sep + 2..]);
      if first == 0 || last == 0 || last < first then 0 else first
  }

  /** `ParseSingleAddress`: host and port that the caller finds in the end point. */
  function ParseAddress(value: string): (string, nat) {
    var colons := CountOf(value, ':');
    if colons == 0 then (value, DEFAULT_PORT)
    else if colons != 1 then ("", 0)
    else
      var i := FirstIndex(value, ':');
      (value[..i], if i + 1 >= |value| then 0 else ParsePortRange(value[i + 1..]))
  }

  // ---------------------------------------------------------------- setters

  /** The size of a string object, which the parser compares text lengths with. */
  const STRING_OBJECT_SIZE := 32

  function Signed32(n: nat): int { if n < 0x8000_0000 then n else n - 0x1_0000_0000 }

  function Underscored(s: string): (r: string)
    ensures |r| == |s|
  {
    seq(|s|, i requires 0 <= i < |s| => if s[i] == ' ' then '_' else s[i])
  }

  function ReadChoice(options: seq<string>, underscores: bool, text: string): Option<nat> {
    var t := Strip(ToLower(text));
    Find(options, if underscores then Underscored(t) else t, 0)
  }

  /** The value that the setter stores, or nothing when it rejects the text. */
  function Accept(kind: Kind, text: string, directories: set<string>): Option<Value> {
    match kind
    case Text => Some(TextValue(text))
    case Host => Some(TextValue(ParseAddress(text).0))
    case Directory => if text in directories then Some(TextValue(text)) else None
    case PortNumber =>
      if text == "" || !AllDigits(text) || |text| >= STRING_OBJECT_SIZE then None
      else if 0 < DecimalValue(text) <= 0xFFFF then Some(NumberValue(DecimalValue(text))) else None
    case Count(least) =>
      if !AllDigits(text) || |text| >= STRING_OBJECT_SIZE then None
      else if least <= DecimalValue(text) <= 0xFFFF_FFFF then Some(NumberValue(Signed32(DecimalValue(text)))) else None
    case Flag =>
      if ToLower(text) == "true" then Some(FlagValue(true))
      else if ToLower(text) == "false" then Some(FlagValue(false)) else None
    case Choice(options, underscores) =>
      match ReadChoice(options, underscores, text)
      case Some(i) => Some(ChoiceValue(i))
      case None => None
  }

  /** The settings after one attribute: a hostname also brings a port when none is set. */
  function Set(cfg: Settings, f: Field, text: string, directories: set<string>): Settings
    requires f < FIELDS
  {
    match Accept(KindOf(f), text, directories)
    case None => cfg
    case Some(v) =>
      var next := cfg[f := v];
      if f == HOSTNAME && PORT !in next then next[PORT := NumberValue(ParseAddress(text).1)] else next
  }

  lemma {:induction false} FindBounds(names: seq<string>, s: string, i: nat)
    requires i <= |names|
    ensures match Find(names, s, i)
      case Some(k) => i <= k < |names| && names[k] == s && forall j :: i <= j < k ==> names[j] != s
      case None => forall j :: i <= j < |names| ==> names[j] != s
    decreases |names| - i
  {
    if i == |names| || names[i] == s {
    } else {
      FindBounds(names, s, i + 1);
    }
  }

  lemma {:induction false} FieldInTable(key: string)
    ensures FieldOf(key).Some? ==> FieldOf(key).value < FIELDS
  {
    FindBounds(KEYS, key, 0);
  }

  function HandlePair(cfg: Settings, key: string, text: string, directories: set<string>): Settings {
    FieldInTable(ToLower(key));
    match FieldOf(ToLower(key))
    case Some(f) => Set(cfg, f, text, directories)
    case None => cfg
  }

  // ---------------------------------------------------------------- parsing

  /** Surrounding white space goes, then one pair of braces. */
  function Unwrapped(s: string): string {
    var t := Strip(s);
    if |t| > 0 && t[0] == '{' && t[|t| - 1] == '}' then (if |t| >= 2 then t[1..|t| - 1] else t) else t
  }

  /** One segment: cut at its last '=', if there is something before it. */
  function HandleSegment(cfg: Settings, segment: string, directories: set<string>): Settings {
    var eq := LastIndex(segment, '=');
    if eq <= 0 then cfg
    else HandlePair(cfg, Strip(segment[..eq]), Unwrapped(segment[eq + 1..]), directories)
  }

  /** The segments between the delimiters, from left to right. */
  function Split(s: string, delimiter: char): (segments: seq<string>)
    ensures |segments| > 0
    decreases |s|
  {
    var i := LastIndex(s, delimiter);
    if i < 0 then [s] else Split(s[..i], delimiter) + [s[i + 1..]]
  }

  function Join(segments: seq<string>, delimiter: char): string
    requires |segments| > 0
  {
    if |segments| == 1 then segments[0]
    else Join(segments[..|segments| - 1], delimiter) + [delimiter] + segments[|segments| - 1]
  }

  /** Splitting loses nothing and leaves no delimiter inside a segment. */
  lemma {:induction false} SplitJoin(s: string, delimiter: char)
    ensures Join(Split(s, delimiter), delimiter) == s
    ensures forall i :: 0 <= i < |Split(s, delimiter)| ==> delimiter !in Split(s, delimiter)[i]
    decreases |s|
  {
    var i := LastIndex(s, delimiter);
    if i < 0 {
    } else {
      SplitJoin(s[..i], delimiter);
      var front := Split(s[..i], delimiter);
      assert Split(s, delimiter)[..|front|] == front;
      assert s == s[..i] + [s[i]] + s[i + 1..];
    }
  }

  /** The segments are handled from the last to the first. */
  function HandleSegments(cfg: Settings, segments: seq<string>, directories: set<string>): Settings
    decreases |segments|
  {
    if |segments| == 0 then cfg
    else
      HandleSegments(HandleSegment(cfg, segments[|segments| - 1], directories), segments[..|segments| - 1], directories)
  }

  function WithoutTrailingZeros(s: string): string {
    if |s| > 0 && s[|s| - 1] == '\0' then WithoutTrailingZeros(s[..|s| - 1]) else s
  }

  function Parsed(cfg: Settings, s: string, delimiter: char, directories: set<string>): Settings {
    HandleSegments(cfg, Split(WithoutTrailingZeros(s), delimiter), directories)
  }

  lemma {:induction false} SplitStep(cfg: Settings, s: string, delimiter: char, directories: set<string>)
    ensures var i := LastIndex(s, delimiter);
      HandleSegments(cfg, Split(s, delimiter), directories)
      == if i < 0 then HandleSegment(cfg, s, directories)
         else HandleSegments(HandleSegment(cfg, s[i + 1..], directories), Split(s[..i], delimiter), directories)
  {
    hide HandleSegment, LastIndex;
    var i := LastIndex(s, delimiter);
    var segments := Split(s, delimiter);
    if i >= 0 {
      assert segments[..|segments| - 1] == Split(s[..i], delimiter);
    } else {
      assert segments[..0] == [];
      assert HandleSegments(HandleSegment(cfg, s, directories), [], directories) == HandleSegment(cfg, s, directories);
    }
  }

  /** The last '=' of the whole string, seen from the last segment. */
  lemma {:induction false} EqualsInSegment(s: string, begin: nat)
    requires begin <= |s|
    ensures var whole, own := LastIndex(s, '='), LastIndex(s[begin..], '=');
      (begin < whole <==> own > 0) && (own > 0 ==> whole == begin + own)
  {
    var own := LastIndex(s[begin..], '=');
    if own >= 0 {
      assert forall k :: begin + own < k < |s| ==> s[k] == s[begin..][k - begin];
      LastIndexIs(s, '=', begin + own);
    } else {
      assert forall k :: begin <= k < |s| ==> s[k] == s[begin..][k - begin];
    }
  }

  class Configuration {
    var settings: Settings
    const directories: set<string>

    constructor (directories: set<string>)
      ensures settings == map[] && this.directories == directories
    {
      this.directories := directories;
      settings := map[];
    }

    method HandleAttributePair(key: string, text: string)
      modifies this`settings
      ensures settings == HandlePair(old(settings), key, text, directories)
    {
      FieldInTable(ToLower(key));
      match FieldOf(ToLower(key)) {
        case None =>
        case Some(f) =>
          var accepted := Accept(KindOf(f), text, directories);
          if accepted.None? { return; }
          settings := settings[f := accepted.value];
          if f == HOSTNAME && PORT !in settings {
            settings := settings[PORT := NumberValue(ParseAddress(text).1)];
          }
      }
    }

    /** The destructive loop from the right hands over the segments of the split, last first. */
    method ParseConnectionString(str: string, delimiter: char)
      modifies this`settings
      ensures settings == Parsed(old(settings), str, delimiter, directories)
    {
      hide HandlePair, HandleSegment, HandleSegments, Split, Strip, Unwrapped, LastIndex;
      var s := str;
      while |s| > 0 && s[|s| - 1] == '\0'
        invariant WithoutTrailingZeros(s) == WithoutTrailingZeros(str)
      {
        s := s[..|s| - 1];
      }
      ghost var result := HandleSegments(settings, Split(s, delimiter), directories);
      assert result == Parsed(old(settings), str, delimiter, directories);
      while |s| > 0
        invariant HandleSegments(settings, Split(s, delimiter), directories) == result
        decreases |s|
      {
        SplitStep(settings, s, delimiter, directories);
        var begin := LastIndex(s, delimiter) + 1;
        var eq := LastIndex(s, '=');
        SegmentCut(settings, s, begin, directories);
        if eq < 0 { eq := 0; }
        if begin < eq { HandleAttributePair(Strip(s[begin..eq]), Unwrapped(s[eq + 1..])); }
        if begin == 0 {
          assert settings == result;
          break;
        }
        s := s[..begin - 1];
      }
      if s == "" { EmptySplit(settings, delimiter, directories); }
    }
  }

  lemma {:induction false} CutTail(s: string, begin: nat, eq: nat)
    requires begin < eq < |s|
    ensures s[begin..][..eq - begin] == s[begin..eq] && s[begin..][eq - begin + 1..] == s[eq + 1..]
  {}

  /** The last segment of s is cut where the whole of s has its last '='. */
  lemma {:induction false} SegmentCut(cfg: Settings, s: string, begin: nat, directories: set<string>)
    requires begin <= |s|
    ensures var eq := LastIndex(s, '=');
      HandleSegment(cfg, s[begin..], directories)
      == if begin < eq then HandlePair(cfg, Strip(s[begin..eq]), Unwrapped(s[eq + 1..]), directories) else cfg
    ensures begin == 0 ==> s[begin..] == s
  {
    hide HandlePair, Strip, Unwrapped, LastIndex;
    EqualsInSegment(s, begin);
    var eq := LastIndex(s, '=');
    if begin < eq { CutTail(s, begin, eq); }
  }

  lemma {:induction false} EmptySplit(cfg: Settings, delimiter: char, directories: set<string>)
    ensures HandleSegments(cfg, Split("", delimiter), directories) == cfg
  {
    SplitStep(cfg, "", delimiter, directories);
  }

  // ---------------------------------------------------------------- which occurrence wins

  /** What a segment says about an attribute: the value that its setter would store. */
  function Says(segment: string, f: Field, directories: set<string>): Option<Value>
    requires f < FIELDS
  {
    var eq := LastIndex(segment, '=');
    if eq <= 0 || FieldOf(ToLower(Strip(segment[..eq]))) != Some(f) then None
    else Accept(KindOf(f), Unwrapped(segment[eq + 1..]), directories)
  }

  /** The value of the leftmost segment that says one. */
  function Leftmost(segments: seq<string>, f: Field, directories: set<string>): Option<Value>
    requires f < FIELDS
    decreases |segments|
  {
    if |segments| == 0 then None
    else
      var front := Leftmost(segments[..|segments| - 1], f, directories);
      if front.Some? then front else Says(segments[|segments| - 1], f, directories)
  }

  function Lookup(cfg: Settings, f: Field): Option<Value> {
    if f in cfg then Some(cfg[f]) else None
  }

  lemma {:induction false} SegmentSays(cfg: Settings, segment: string, f: Field, directories: set<string>)
    requires f < FIELDS && f != PORT
    ensures Lookup(HandleSegment(cfg, segment, directories), f)
         == if Says(segment, f, directories).Some? then Says(segment, f, directories) else Lookup(cfg, f)
  {
    hide Accept, Unwrapped, Strip, FieldOf, ToLower;
    var eq := LastIndex(segment, '=');
    if eq > 0 { FieldInTable(ToLower(Strip(segment[..eq]))); }
  }

  /** Of several segments for one attribute the leftmost valid one wins. */
  lemma {:induction false} LeftmostWins(cfg: Settings, segments: seq<string>, f: Field, directories: set<string>)
    requires f < FIELDS && f != PORT
    ensures Lookup(HandleSegments(cfg, segments, directories), f)
         == if Leftmost(segments, f, directories).Some? then Leftmost(segments, f, directories) else Lookup(cfg, f)
    decreases |segments|
  {
    hide HandleSegment, Says;
    if |segments| == 0 {
    } else {
      var last, front := segments[|segments| - 1], segments[..|segments| - 1];
      SegmentSays(cfg, last, f, directories);
      LeftmostWins(HandleSegment(cfg, last, directories), front, f, directories);
    }
  }

  /** The leftmost value is that of a segment before which no segment says one. */
  lemma {:induction false} LeftmostIs(segments: seq<string>, i: nat, f: Field, directories: set<string>)
    requires f < FIELDS && i < |segments| && Says(segments[i], f, directories).Some?
    requires forall j :: 0 <= j < i ==> Says(segments[j], f, directories).None?
    ensures Leftmost(segments, f, directories) == Says(segments[i], f, directories)
    decreases |segments|
  {
    hide Says;
    var front := segments[..|segments| - 1];
    if i == |segments| - 1 { LeftmostNone(front, f, directories); } else { LeftmostIs(front, i, f, directories); }
  }

  lemma {:induction false} LeftmostNone(segments: seq<string>, f: Field, directories: set<string>)
    requires f < FIELDS && forall j :: 0 <= j < |segments| ==> Says(segments[j], f, directories).None?
    ensures Leftmost(segments, f, directories) == None
    decreases |segments|
  {
    hide Says;
    if |segments| == 0 {
    } else {
      LeftmostNone(segments[..|segments| - 1], f, directories);
    }
  }

  /** The segment is for this attribute, whatever text it has. */
  predicate Names(segment: string, f: Field) {
    var eq := LastIndex(segment, '=');
    eq > 0 && FieldOf(ToLower(Strip(segment[..eq]))) == Some(f)
  }

  /** A plain text attribute takes any text, so its leftmost segment wins outright, even with no text. */
  lemma {:induction false} LeftmostTextWins(cfg: Settings, segments: seq<string>, i: nat, f: Field,
                                            directories: set<string>)
    requires f < FIELDS && KindOf(f) == Text && i < |segments| && Names(segments[i], f)
    requires forall j :: 0 <= j < i ==> !Names(segments[j], f)
    ensures Lookup(HandleSegments(cfg, segments, directories), f)
         == Some(TextValue(Unwrapped(segments[i][LastIndex(segments[i], '=') + 1..])))
  {
    hide Unwrapped, Strip, FieldOf, ToLower, HandleSegments, Leftmost;
    assert f != PORT;
    hide KindOf;
    LeftmostIs(segments, i, f, directories);
    LeftmostWins(cfg, segments, f, directories);
  }

  /** The port that a hostname segment brings along. */
  function HostPort(segment: string): Option<Value> {
    var eq := LastIndex(segment, '=');
    if eq <= 0 || FieldOf(ToLower(Strip(segment[..eq]))) != Some(HOSTNAME) then None
    else Some(NumberValue(ParseAddress(Unwrapped(segment[eq + 1..])).1))
  }

  /** The port of the rightmost hostname segment. */
  function RightmostHostPort(segments: seq<string>): Option<Value>
    decreases |segments|
  {
    if |segments| == 0 then None
    else if HostPort(segments[|segments| - 1]).Some? then HostPort(segments[|segments| - 1])
    else RightmostHostPort(segments[..|segments| - 1])
  }

  function Or(a: Option<Value>, b: Option<Value>): Option<Value> {
    if a.Some? then a else b
  }

  lemma {:induction false} SegmentPort(cfg: Settings, segment: string, directories: set<string>)
    ensures Lookup(HandleSegment(cfg, segment, directories), PORT)
         == Or(Says(segment, PORT, directories), Or(Lookup(cfg, PORT), HostPort(segment)))
  {
    hide Accept, KindOf, Unwrapped, Strip, FieldOf, ToLower, ParseAddress;
    var eq := LastIndex(segment, '=');
    if eq > 0 {
      FieldInTable(ToLower(Strip(segment[..eq])));
      HostIsText(Unwrapped(segment[eq + 1..]), directories);
    }
  }

  lemma {:induction false} HostIsText(text: string, directories: set<string>)
    ensures Accept(KindOf(HOSTNAME), text, directories) == Some(TextValue(ParseAddress(text).0))
  {
    hide ParseAddress, DecimalValue, ToLower, ReadChoice;
  }

  /**
   The port is the leftmost valid port segment's, wherever the hostnames are; without one it stays
   as it was, and only if it was not set it is that of the rightmost hostname.
   */
  lemma {:induction false} PortRule(cfg: Settings, segments: seq<string>, directories: set<string>)
    ensures Lookup(HandleSegments(cfg, segments, directories), PORT)
         == Or(Leftmost(segments, PORT, directories), Or(Lookup(cfg, PORT), RightmostHostPort(segments)))
    decreases |segments|
  {
    hide HandleSegment, Says, HostPort, Lookup;
    if |segments| == 0 {
    } else {
      var last, front := segments[|segments| - 1], segments[..|segments| - 1];
      SegmentPort(cfg, last, directories);
      PortRule(HandleSegment(cfg, last, directories), front, directories);
    }
  }

  // ---------------------------------------------------------------- printing

  /** The text of a value in the argument map. */
  function Shown(kind: Kind, v: Value): string {
    match v
    case TextValue(t) => t
    case NumberValue(n) => Show(n)
    case FlagValue(b) => if b then "true" else "false"
    case ChoiceValue(i) => if kind.Choice? && i < |kind.options| then kind.options[i] else "unknown"
  }

  /** Text with a space is put in braces. */
  function Wrapped(s: string): string {
    if ' ' in s then "{" + s + "}" else s
  }

  /** What the printer appends for one attribute. */
  function Item(c: Settings, f: Field): string
    requires f < FIELDS
  {
    if f !in c || Shown(KindOf(f), c[f]) == "" then ""
    else Pair(c, f) + ";"
  }

  function Pair(c: Settings, f: Field): string
    requires f < FIELDS && f in c
  {
    KEYS[f] + "=" + Wrapped(Shown(KindOf(f), c[f]))
  }

  /** The first n attributes in the order of their keys. */
  function Printed(c: Settings, n: nat): string
    requires n <= FIELDS
  {
    if n == 0 then "" else Printed(c, n - 1) + Item(c, n - 1)
  }

  /** The keys are in the order in which an ordered map visits them. */
  method ToConnectString(cfg: Configuration) returns (s: string)
    ensures s == Printed(cfg.settings, FIELDS)
  {
    s := "";
    var f := 0;
    while f < FIELDS
      invariant 0 <= f <= FIELDS && s == Printed(cfg.settings, f)
    {
      if f in cfg.settings {
        var value := Shown(KindOf(f), cfg.settings[f]);
        if value != "" {
          if ' ' !in value {
            s := s + (KEYS[f] + "=" + value + ";");
          } else {
            s := s + (KEYS[f] + "=" + ("{" + value + "}") + ";");
          }
        }
      }
      f := f + 1;
    }
  }
}
