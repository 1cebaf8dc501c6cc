/** The parser of the agent's `<<<local>>>` section (cmk/base/plugins/agent_based/local.py):
    state tokens, line validity, the `cached(...)` prefix, performance data entries and the
    whole section. Python's `float()`, `shlex.split` and `repr` are library code and come in
    as the functions of `Externals`; numbers are reals. */
module LocalParse {
  import opened LocalText

  datatype Option<T> = None | Some(value: T)

  /** The exceptions the parser raises or catches. */
  datatype Exception = ValueError | ZeroDivisionError

  datatype Result<T> = Success(value: T) | Failure(error: Exception)

  /** The library functions the parser calls: `float(s)` (`None` when it raises `ValueError`),
      `shlex.split(s)` (`None` when it raises `ValueError`) and `repr(s)`. */
  datatype Externals = Externals(
    parseFloat: string -> Option<real>,
    shlexSplit: string -> Option<seq<string>>,
    repr: string -> string)

  /** `State` of the check API. */
  datatype State = OK | WARN | CRIT | UNKNOWN

  function StateOf(n: int): (s: State)
    requires 0 <= n <= 3
    ensures s == OK <==> n == 0
    ensures s == UNKNOWN <==> n == 3
  {
    if n == 0 then OK else if n == 1 then WARN else if n == 2 then CRIT else UNKNOWN
  }

  // ---------------------------------------------------------------- state token

  /** The first token of a line: a state 0..3 or `P` (state computed from the levels). */
  datatype RawState = Code(n: int) | Passive

  const VALID_STATE_TOKENS: set<string> := {"0", "1", "2", "3", "P"}

  /** `_sanitize_state`: the state and an error message, empty for a known token. */
  function SanitizeState(token: string): (r: (RawState, string))
    ensures r.1 == "" <==> token in VALID_STATE_TOKENS
    ensures r.0 == Passive <==> token == "P"
    ensures r.0.Code? ==> 0 <= r.0.n <= 3
    ensures token in VALID_STATE_TOKENS - {"P"} ==> r.0 == Code(token[0] as int - '0' as int)
    ensures token !in VALID_STATE_TOKENS ==> r.0 == Code(3)
  {
    if token == "0" then (Code(0), "")
    else if token == "1" then (Code(1), "")
    else if token == "2" then (Code(2), "")
    else if token == "3" then (Code(3), "")
    else if token == "P" then (Passive, "")
    else (Code(3), "Invalid plugin status " + token + ".")
  }

  /** The message about an unknown state token quotes the token. */
  lemma InvalidStatusNamesToken(token: string)
    requires token !in VALID_STATE_TOKENS
    ensures var m := SanitizeState(token).1;
      |m| == |token| + 23 && m[..22] == "Invalid plugin status " && m[22..|m| - 1] == token &&
      m[|m| - 1] == '.'
  {
  }

  // ---------------------------------------------------------------- line validity

  const EMPTY_LINE_REASON: string :=
    "Received empty line. Did any of your local checks returned a superfluous newline character?"
  const WRONG_FORMAT_REASON: string :=
    "Received wrong format of local check output. Please read the documentation regarding the "
    + "correct format: https://docs.checkmk.com/2.0.0/de/localchecks.html "

  /** `_is_valid_line`: four tokens or more, or three starting with `P` (no text). */
  predicate IsValidLine(line: seq<string>)
  {
    |line| >= 4 || (|line| == 3 && line[0] == "P")
  }

  /** `_get_violation_reason`: empty exactly for a valid line, otherwise why it is not. */
  function GetViolationReason(line: seq<string>): (r: string)
    ensures r == "" <==> IsValidLine(line)
    ensures |line| == 0 ==> r == EMPTY_LINE_REASON
    ensures |line| > 0 && !IsValidLine(line) ==> r == WRONG_FORMAT_REASON
  {
    if |line| == 0 then EMPTY_LINE_REASON
    else if |line| < 4 && !(|line| == 3 && line[0] == "P") then WRONG_FORMAT_REASON
    else ""
  }

  // ---------------------------------------------------------------- cache prefix

  /** The cache information of a line: the age of the cached data, the elapsed share of the
      cache interval in percent, and the interval. */
  datatype CacheInfo = CacheInfo(age: real, elapsedPercent: real, interval: real)

  const CACHE_PREFIX: string := "cached("

  predicate StartsWith(s: string, prefix: string)
  {
    |prefix| <= |s| && s[..|prefix|] == prefix
  }

  /** `token[7:-1]`: between the prefix and the last character, empty when nothing is. */
  function CacheBody(token: string): string
  {
    if |token| >= 8 then token[7..|token| - 1] else ""
  }

  /** The creation time and interval of `cached(CREATION,INTERVAL)`: unpacking fewer than
      two numbers, or a number that does not parse, raises `ValueError`. */
  function CacheFields(token: string, ext: Externals): Result<(real, real)>
  {
    var parts := SplitOnce(CacheBody(token), ',');
    if |parts| != 2 then Failure(ValueError)
    else
      match (ext.parseFloat(parts[0]), ext.parseFloat(parts[1]))
      case (Some(created), Some(interval)) => Success((created, interval))
      case _ => Failure(ValueError)
  }

  /** `_parse_cache`: the cache information and the line without its `cached(...)` token; a
      line without one comes back unchanged. A zero interval divides by zero. */
  function ParseCache(line: seq<string>, now: real, ext: Externals): (r: Result<(Option<CacheInfo>, seq<string>)>)
    ensures !(|line| > 0 && StartsWith(line[0], CACHE_PREFIX)) ==> r == Success((None, line))
    ensures |line| > 0 && StartsWith(line[0], CACHE_PREFIX) ==>
      (r.Success? <==> CacheFields(line[0], ext).Success? && CacheFields(line[0], ext).value.1 != 0.0)
    ensures r.Success? && r.value.0.Some? ==> r.value.1 == line[1..]
    ensures r.Success? && r.value.0.Some? ==>
      CacheFields(line[0], ext).Success? && r.value.0.value == CacheInfoOf(now - CacheFields(line[0], ext).value.0, CacheFields(line[0], ext).value.1)
  {
    if |line| == 0 || !StartsWith(line[0], CACHE_PREFIX) then Success((None, line))
    else
      var fields := CacheFields(line[0], ext);
      if fields.Failure? then Failure(fields.error)
      else if fields.value.1 == 0.0 then Failure(ZeroDivisionError)
      else Success((Some(CacheInfoOf(now - fields.value.0, fields.value.1)), line[1..]))
  }

  /** A line with a `cached(...)` token that parses always reports cache information, and a
      line that fails on one fails by dividing by zero exactly when both numbers parsed. */
  lemma ParseCacheOutcome(line: seq<string>, now: real, ext: Externals)
    ensures var r := ParseCache(line, now, ext);
      |line| > 0 && StartsWith(line[0], CACHE_PREFIX) && r.Success? ==> r.value.0.Some?
    ensures var r := ParseCache(line, now, ext);
      r.Failure? ==> |line| > 0 && (r.error == ZeroDivisionError <==> CacheFields(line[0], ext).Success?)
  {
  }

  /** The cache information of data of age `age` with refresh interval `interval`: the share
      of the interval already used, in percent. */
  function CacheInfoOf(age: real, interval: real): (info: CacheInfo)
    requires interval != 0.0
    ensures info.age == age && info.interval == interval
    ensures info.elapsedPercent * info.interval == 100.0 * info.age
  {
    CacheInfo(age, 100.0 * age / interval, interval)
  }

  /** The token `cached(CREATION,INTERVAL)` a caching agent plugin writes. */
  function CacheToken(created: string, interval: string): string
  {
    CACHE_PREFIX + created + "," + interval + ")"
  }

  /** A line that starts with `cached(CREATION,INTERVAL)` loses that token and reports the
      age since CREATION against INTERVAL. */
  lemma CacheRoundTrip(created: string, interval: string, rest: seq<string>, now: real, ext: Externals)
    requires ',' !in created
    requires ext.parseFloat(created).Some? && ext.parseFloat(interval).Some?
    requires ext.parseFloat(interval).value != 0.0
    ensures var c, i := ext.parseFloat(created).value, ext.parseFloat(interval).value;
      ParseCache([CacheToken(created, interval)] + rest, now, ext) == Success((Some(CacheInfoOf(now - c, i)), rest))
  {
    CacheTokenFields(created, interval, ext);
    CachedLine(CacheToken(created, interval), rest, now, ext, ext.parseFloat(created).value,
               ext.parseFloat(interval).value);
  }

  /** A line whose first token is a well-formed cache token with a non-zero interval. */
  lemma CachedLine(token: string, rest: seq<string>, now: real, ext: Externals, created: real, interval: real)
    requires StartsWith(token, CACHE_PREFIX)
    requires CacheFields(token, ext) == Success((created, interval)) && interval != 0.0
    ensures ParseCache([token] + rest, now, ext) == Success((Some(CacheInfoOf(now - created, interval)), rest))
  {
    var line := [token] + rest;
    assert line[0] == token && line[1..] == rest;
  }

  /** The token `cached(CREATION,INTERVAL)` carries the prefix and the two numbers. */
  lemma CacheTokenFields(created: string, interval: string, ext: Externals)
    requires ',' !in created
    requires ext.parseFloat(created).Some? && ext.parseFloat(interval).Some?
    ensures StartsWith(CacheToken(created, interval), CACHE_PREFIX)
    ensures CacheFields(CacheToken(created, interval), ext) ==
      Success((ext.parseFloat(created).value, ext.parseFloat(interval).value))
  {
    var token := CacheToken(created, interval);
    assert token[..7] == CACHE_PREFIX;
    assert CacheBody(token) == created + [','] + interval;
    SplitOnceAt(created, ',', interval);
  }

  // ---------------------------------------------------------------- numbers with units

  predicate Parses(ext: Externals, s: string)
  {
    ext.parseFloat(s).Some?
  }

  /** `float_ignore_uom` as a function: the value of the input with as few trailing characters
      removed as make it parse, 0.0 when no non-empty prefix parses. */
  function UomValue(value: string, ext: Externals): real
    decreases |value|
  {
    if value == "" then 0.0
    else if Parses(ext, value) then ext.parseFloat(value).value
    else UomValue(value[..|value| - 1], ext)
  }

  /** `float_ignore_uom`: drops trailing characters until the rest parses (`16MB` gives 16.0). */
  method FloatIgnoreUom(value: string, ext: Externals) returns (r: real)
    ensures r == UomValue(value, ext)
  {
    var v := value;
    while v != ""
      invariant UomValue(v, ext) == UomValue(value, ext)
      decreases |v|
    {
      var parsed := ext.parseFloat(v);
      if parsed.Some? {
        return parsed.value;
      }
      v := v[..|v| - 1];
    }
    return 0.0;
  }

  /** The value is that of the longest non-empty prefix that parses, or 0.0 when none does. */
  lemma {:induction false} UomValueIsLongestParsablePrefix(value: string, ext: Externals)
    ensures (forall k | 0 < k <= |value| :: !Parses(ext, value[..k])) ==> UomValue(value, ext) == 0.0
    ensures forall k | 0 < k <= |value| && Parses(ext, value[..k]) ::
      (forall j | k < j <= |value| :: !Parses(ext, value[..j])) ==>
      UomValue(value, ext) == ext.parseFloat(value[..k]).value
    decreases |value|
  {
    if value != "" {
      assert value[..|value|] == value;
      if !Parses(ext, value) {
        var shorter := value[..|value| - 1];
        UomValueIsLongestParsablePrefix(shorter, ext);
        forall k | 0 < k <= |shorter| ensures shorter[..k] == value[..k] {
        }
        assert UomValue(value, ext) == UomValue(shorter, ext);
      } else {
        assert UomValue(value, ext) == ext.parseFloat(value[..|value|]).value;
      }
    }
  }

  // ---------------------------------------------------------------- performance data

  /** A level: a number, or the infinities that stand in for a missing critical level. */
  datatype Level = Finite(x: real) | PosInf | NegInf

  /** `Perfdata`: name, value, upper and lower (warn, crit) levels and (min, max). */
  datatype Perfdata = Perfdata(
    name: string,
    value: real,
    levelsUpper: Option<(Level, Level)>,
    levelsLower: Option<(Level, Level)>,
    boundaries: (Option<real>, Option<real>))

  /** `_try_convert_to_float`. */
  function TryFloat(s: string, ext: Externals): (r: Option<Level>)
    ensures r.Some? <==> Parses(ext, s)
    ensures r.Some? ==> r.value == Finite(ext.parseFloat(s).value)
  {
    match ext.parseFloat(s)
    case Some(x) => Some(Finite(x))
    case None => None
  }

  /** The level in field `k` (1: warning, 2: critical) of the raw fields: the upper one is the
      text after the first `:` (all of it without one), the lower one the text before it. */
  function LevelField(raw: seq<string>, k: nat, upper: bool, ext: Externals): Option<Level>
  {
    if k >= |raw| then None
    else
      var parts := SplitOnce(raw[k], ':');
      if upper then TryFloat(parts[|parts| - 1], ext)
      else if |parts| > 1 then TryFloat(parts[0], ext)
      else None
  }

  /** The (warn, crit) pair check_levels receives: a lone critical level is also the warning
      level, a lone warning level gets `unbounded` as critical level. */
  function LevelPair(warn: Option<Level>, crit: Option<Level>, unbounded: Level): (r: Option<(Level, Level)>)
    ensures r.None? <==> warn.None? && crit.None?
    ensures crit.Some? ==> r.Some? && r.value.1 == crit.value
    ensures warn.Some? ==> r.Some? && r.value.0 == warn.value
    ensures warn.None? && crit.Some? ==> r == Some((crit.value, crit.value))
    ensures warn.Some? && crit.None? ==> r == Some((warn.value, unbounded))
  {
    match (warn, crit)
    case (None, None) => None
    case (None, Some(c)) => Some((c, c))
    case (Some(w), None) => Some((w, unbounded))
    case (Some(w), Some(c)) => Some((w, c))
  }

  /** A boundary field (3: min, 4: max): absent when there are not that many fields, a
      `ValueError` when present and not a number. */
  function Boundary(raw: seq<string>, k: nat, ext: Externals): Result<Option<real>>
  {
    if k >= |raw| then Success(None)
    else match ext.parseFloat(raw[k])
      case Some(x) => Success(Some(x))
      case None => Failure(ValueError)
  }

  /** `_parse_perfentry` as a function on `NAME=VALUE[;WARN[;CRIT[;MIN[;MAX]]]]` after
      trailing `;` are stripped; WARN and CRIT may be `LOWER:UPPER`. */
  function PerfEntry(entry: string, ext: Externals): Result<Perfdata>
  {
    var stripped := RStrip(entry, ';');
    if '=' !in stripped then Failure(ValueError)
    else
      var halves := SplitOnce(stripped, '=');
      PerfFields(halves[0], Split(halves[1], ';'), ext)
  }

  /** The entry made of a name and the `;`-separated fields after the `=`. */
  function PerfFields(name: string, raw: seq<string>, ext: Externals): Result<Perfdata>
    requires |raw| >= 1
  {
      match (Boundary(raw, 3, ext), Boundary(raw, 4, ext))
      case (Success(min), Success(max)) =>
        Success(Perfdata(
          name,
          UomValue(raw[0], ext),
          LevelPair(LevelField(raw, 1, true, ext), LevelField(raw, 2, true, ext), PosInf),
          LevelPair(LevelField(raw, 1, false, ext), LevelField(raw, 2, false, ext), NegInf),
          (min, max)))
      case _ => Failure(ValueError)
  }

  /** The levels as the raw fields give them, before lone levels are completed. */
  method ReadLevels(levels: array<Option<Level>>, raw: seq<string>, ext: Externals)
    requires levels.Length == 4
    modifies levels
    ensures levels[..] == [LevelField(raw, 1, true, ext), LevelField(raw, 2, true, ext),
                           LevelField(raw, 1, false, ext), LevelField(raw, 2, false, ext)]
  {
    levels[0], levels[1], levels[2], levels[3] := None, None, None, None;
    if |raw| >= 2 {
      var warn := SplitOnce(raw[1], ':');
      levels[0] := TryFloat(warn[|warn| - 1], ext);
      if |warn| > 1 {
        levels[2] := TryFloat(warn[0], ext);
      }
    }
    if |raw| >= 3 {
      var crit := SplitOnce(raw[2], ':');
      levels[1] := TryFloat(crit[|crit| - 1], ext);
      if |crit| > 1 {
        levels[3] := TryFloat(crit[0], ext);
      }
    }
  }

  /** The levels part of `_parse_perfentry`: the four levels (upper warn, upper crit, lower
      warn, lower crit) filled in place from the raw fields, then lone levels completed. */
  method FillLevels(raw: seq<string>, ext: Externals) returns (upper: Option<(Level, Level)>, lower: Option<(Level, Level)>)
    ensures upper == LevelPair(LevelField(raw, 1, true, ext), LevelField(raw, 2, true, ext), PosInf)
    ensures lower == LevelPair(LevelField(raw, 1, false, ext), LevelField(raw, 2, false, ext), NegInf)
  {
    var levels := new Option<Level>[4](_ => None);
    ReadLevels(levels, raw, ext);
    ghost var given := levels[..];
    if levels[0].None? && levels[1].Some? {
      levels[0] := levels[1];
    }
    if levels[2].None? && levels[3].Some? {
      levels[2] := levels[3];
    }
    if levels[0].Some? && levels[1].None? {
      levels[1] := Some(PosInf);
    }
    if levels[2].Some? && levels[3].None? {
      levels[3] := Some(NegInf);
    }
    // the assertion of `optional_tuple`
    assert levels[0].None? == levels[1].None? && levels[2].None? == levels[3].None?;
    upper := if levels[0].Some? then Some((levels[0].value, levels[1].value)) else None;
    lower := if levels[2].Some? then Some((levels[2].value, levels[3].value)) else None;
  }

  /** `_parse_perfentry`: the name before the first `=`, the value, the levels and the
      boundaries; a missing `=` or a boundary that is not a number raises `ValueError`. */
  method ParsePerfentry(entry: string, ext: Externals) returns (r: Result<Perfdata>)
    ensures r == PerfEntry(entry, ext)
  {
    var stripped := RStrip(entry, ';');
    if '=' !in stripped {
      return Failure(ValueError);
    }
    var halves := SplitOnce(stripped, '=');
    var name, rawList := halves[0], halves[1];
    var raw := Split(rawList, ';');
    var value := FloatIgnoreUom(raw[0], ext);
    var upper, lower := FillLevels(raw, ext);
    var min, max := None, None;
    if |raw| >= 4 {
      var parsed := ext.parseFloat(raw[3]);
      if parsed.None? {
        return Failure(ValueError);
      }
      min := Some(parsed.value);
    }
    if |raw| >= 5 {
      var parsed := ext.parseFloat(raw[4]);
      if parsed.None? {
        return Failure(ValueError);
      }
      max := Some(parsed.value);
    }
    return Success(Perfdata(name, value, upper, lower, (min, max)));
  }

  /** An entry parses exactly when it has a `=` (after trailing `;` are stripped) and its
      MIN and MAX fields, where present, are numbers; the name is the text before the first
      `=` and the value is read from the text after it, ignoring a unit. */
  lemma PerfEntryParsesIff(entry: string, ext: Externals)
    ensures var stripped := RStrip(entry, ';');
      var r := PerfEntry(entry, ext);
      (r.Success? <==>
        '=' in stripped &&
        var raw := Split(SplitOnce(stripped, '=')[1], ';');
        (|raw| >= 4 ==> Parses(ext, raw[3])) && (|raw| >= 5 ==> Parses(ext, raw[4]))) &&
      (r.Success? ==>
        '=' !in r.value.name &&
        exists rest :: stripped == r.value.name + "=" + rest && r.value.value == UomValue(Split(rest, ';')[0], ext))
  {
    var stripped := RStrip(entry, ';');
    if '=' in stripped {
      var halves := SplitOnce(stripped, '=');
      assert stripped == halves[0] + "=" + halves[1];
    }
  }

  /** An entry `NAME=VALUE;WARN;CRIT` with plain numbers as levels gets them as its upper
      levels, no lower levels and no boundaries. */
  lemma PerfEntryOfFields(name: string, value: string, warn: string, crit: string, ext: Externals)
    requires '=' !in name
    requires ';' !in value && ';' !in warn && ';' !in crit && ':' !in warn && ':' !in crit
    requires crit != ""
    requires Parses(ext, warn) && Parses(ext, crit)
    ensures PerfEntry(name + "=" + value + ";" + warn + ";" + crit, ext) ==
      Success(Perfdata(name, UomValue(value, ext),
        Some((Finite(ext.parseFloat(warn).value), Finite(ext.parseFloat(crit).value))), None, (None, None)))
  {
    EntryFields(name, value, warn, crit, ext);
    ThreeFields(name, value, warn, crit, ext);
  }

  lemma EntryFields(name: string, value: string, warn: string, crit: string, ext: Externals)
    requires '=' !in name
    requires ';' !in value && ';' !in warn && ';' !in crit
    requires crit != ""
    ensures PerfEntry(name + "=" + value + ";" + warn + ";" + crit, ext) == PerfFields(name, [value, warn, crit], ext)
  {
    var fields := value + ";" + warn + ";" + crit;
    var entry := name + "=" + fields;
    assert entry == name + "=" + value + ";" + warn + ";" + crit;
    assert entry[|entry| - 1] == crit[|crit| - 1];
    assert RStrip(entry, ';') == entry;
    SplitOnceAt(name, '=', fields);
    SplitFields(value, warn, crit);
  }

  lemma ThreeFields(name: string, value: string, warn: string, crit: string, ext: Externals)
    requires ':' !in warn && ':' !in crit
    requires Parses(ext, warn) && Parses(ext, crit)
    ensures PerfFields(name, [value, warn, crit], ext) ==
      Success(Perfdata(name, UomValue(value, ext),
        Some((Finite(ext.parseFloat(warn).value), Finite(ext.parseFloat(crit).value))), None, (None, None)))
  {
    var raw := [value, warn, crit];
    assert SplitOnce(raw[1], ':') == [warn];
    assert SplitOnce(raw[2], ':') == [crit];
  }

  lemma SplitFields(value: string, warn: string, crit: string)
    requires ';' !in value && ';' !in warn && ';' !in crit
    ensures Split(value + ";" + warn + ";" + crit, ';') == [value, warn, crit]
  {
    assert [value, warn, crit][1..] == [warn, crit] && [warn, crit][1..] == [crit];
    assert Join([warn, crit], ";") == warn + ";" + crit;
    assert Join([value, warn, crit], ";") == value + ";" + warn + ";" + crit;
    SplitJoin([value, warn, crit], ';');
  }

  // ---------------------------------------------------------------- performance text

  const PERF_MESSAGE_PREFIX: string := "Invalid performance data: "

  /** The entries that parse, in order. */
  function Parsed(entries: seq<string>, ext: Externals): (r: seq<Perfdata>)
    ensures |r| <= |entries|
  {
    if entries == [] then []
    else
      var last := PerfEntry(entries[|entries| - 1], ext);
      Parsed(entries[..|entries| - 1], ext) + (if last.Success? then [last.value] else [])
  }

  /** The entries that do not parse, in order. */
  function Rejected(entries: seq<string>, ext: Externals): (r: seq<string>)
    ensures |r| <= |entries|
  {
    if entries == [] then []
    else
      var last := entries[|entries| - 1];
      Rejected(entries[..|entries| - 1], ext) + (if PerfEntry(last, ext).Failure? then [last] else [])
  }

  /** `_parse_perftxt` as a function: the parsed entries and the message about the others. */
  function PerfTxt(s: string, ext: Externals): (seq<Perfdata>, string)
  {
    if s == "-" then ([], "")
    else
      var entries := Split(s, '|');
      var rejected := Rejected(entries, ext);
      (Parsed(entries, ext),
       if rejected == [] then "" else PERF_MESSAGE_PREFIX + ext.repr(Join(rejected, "|")) + ". ")
  }

  /** One more entry extends either the parsed entries or the rejected ones. */
  lemma PerfTxtStep(entries: seq<string>, i: nat, ext: Externals)
    requires i < |entries|
    ensures var entry := PerfEntry(entries[i], ext);
      Parsed(entries[..i + 1], ext) == Parsed(entries[..i], ext) + (if entry.Success? then [entry.value] else []) &&
      Rejected(entries[..i + 1], ext) == Rejected(entries[..i], ext) + (if entry.Failure? then [entries[i]] else [])
  {
    assert entries[..i + 1][..i] == entries[..i];
  }

  /** `_parse_perftxt`: the `|`-separated entries, each parsed or collected for the message. */
  method ParsePerftxt(s: string, ext: Externals) returns (perfdata: seq<Perfdata>, msg: string)
    ensures (perfdata, msg) == PerfTxt(s, ext)
  {
    if s == "-" {
      return [], "";
    }
    var entries := Split(s, '|');
    var failed := [];
    perfdata := [];
    for i := 0 to |entries|
      invariant perfdata == Parsed(entries[..i], ext)
      invariant failed == Rejected(entries[..i], ext)
    {
      PerfTxtStep(entries, i, ext);
      var entry := ParsePerfentry(entries[i], ext);
      if entry.Success? {
        perfdata := perfdata + [entry.value];
      } else {
        failed := failed + [entries[i]];
      }
    }
    assert entries[..|entries|] == entries;
    msg := if failed == [] then "" else PERF_MESSAGE_PREFIX + ext.repr(Join(failed, "|")) + ". ";
  }

  /** Every entry is either parsed, with its place among the parsed ones, or rejected. */
  lemma {:induction false} PerfEntriesCount(entries: seq<string>, ext: Externals)
    ensures |Parsed(entries, ext)| + |Rejected(entries, ext)| == |entries|
  {
    if entries != [] {
      PerfEntriesCount(entries[..|entries| - 1], ext);
    }
  }

  /** The rejected entries are exactly the entries that do not parse. */
  lemma {:induction false} RejectedAreFailures(entries: seq<string>, ext: Externals)
    ensures forall e :: e in Rejected(entries, ext) <==> e in entries && PerfEntry(e, ext).Failure?
  {
    if entries != [] {
      var init := entries[..|entries| - 1];
      RejectedAreFailures(init, ext);
      assert entries == init + [entries[|entries| - 1]];
    }
  }

  /** The parsed entries are exactly the results of the entries that parse. */
  lemma {:induction false} ParsedAreSuccesses(entries: seq<string>, ext: Externals)
    ensures forall p :: p in Parsed(entries, ext) <==> exists e | e in entries :: PerfEntry(e, ext) == Success(p)
  {
    if entries != [] {
      var init, last := entries[..|entries| - 1], entries[|entries| - 1];
      ParsedAreSuccesses(init, ext);
      assert entries == init + [last];
      forall p ensures p in Parsed(entries, ext) <==> exists e | e in entries :: PerfEntry(e, ext) == Success(p) {
        ParsedMember(entries, ext, p);
        if exists e | e in entries :: PerfEntry(e, ext) == Success(p) {
          var e :| e in entries && PerfEntry(e, ext) == Success(p);
          if e != last {
            assert e in init;
          }
        }
        if p in Parsed(init, ext) {
          var e :| e in init && PerfEntry(e, ext) == Success(p);
          assert e in entries;
        }
      }
    }
  }

  lemma ParsedMember(entries: seq<string>, ext: Externals, p: Perfdata)
    requires entries != []
    ensures p in Parsed(entries, ext) <==>
      p in Parsed(entries[..|entries| - 1], ext) || PerfEntry(entries[|entries| - 1], ext) == Success(p)
  {
  }

  /** The message is empty exactly when the text is `-` or every entry parses; otherwise it
      names the rejected entries. */
  lemma PerfMessageEmptyIff(s: string, ext: Externals)
    ensures var (perfdata, msg) := PerfTxt(s, ext);
      (msg == "" <==> s == "-" || forall e | e in Split(s, '|') :: PerfEntry(e, ext).Success?) &&
      (msg != "" ==> msg[..|PERF_MESSAGE_PREFIX|] == PERF_MESSAGE_PREFIX) &&
      (s == "-" ==> perfdata == [])
  {
    if s != "-" {
      var entries := Split(s, '|');
      RejectedAreFailures(entries, ext);
      if Rejected(entries, ext) != [] {
        assert Rejected(entries, ext)[0] in Rejected(entries, ext);
      }
    }
  }

  // ---------------------------------------------------------------- lines and the section

  /** `LocalResult`. */
  datatype LocalResult = LocalResult(
    cached: Option<CacheInfo>,
    item: string,
    state: State,
    applyLevels: bool,
    text: string,
    perfdata: seq<Perfdata>)

  /** `LocalError`: the offending line, joined, and the reason. */
  datatype LocalError = LocalError(output: string, reason: string)

  /** `LocalSection`. The dictionary's insertion order is not kept. */
  datatype LocalSection = LocalSection(errors: seq<LocalError>, data: map<string, LocalResult>)

  /** What one line of the section contributes. */
  datatype LineOutcome = Invalid(error: LocalError) | Valid(result: LocalResult)

  /** The tokens of a line: a single string (`:sep(0)` agents) is split shell-like. */
  function Tokens(line: seq<string>, ext: Externals): Result<seq<string>>
  {
    if |line| == 1 then
      match ext.shlexSplit(line[0])
      case Some(tokens) => Success(tokens)
      case None => Failure(ValueError)
    else Success(line)
  }

  /** The result of a valid line: an unknown state token or rejected performance data make the
      state UNKNOWN and put their messages before the text; `P` leaves the state to the levels. */
  function LineResult(cached: Option<CacheInfo>, line: seq<string>, ext: Externals): (r: LocalResult)
    requires IsValidLine(line)
    ensures r.item == line[1] && r.cached == cached && r.perfdata == PerfTxt(line[2], ext).0
    ensures r.applyLevels <==> line[0] == "P" && PerfTxt(line[2], ext).1 == ""
    ensures r.applyLevels ==> r.state == OK
  {
    var (raw, stateMsg) := SanitizeState(line[0]);
    var (perfdata, perfMsg) := PerfTxt(line[2], ext);
    var text := UnescapeNewlines(Join(line[3..], " "));
    if stateMsg != "" || perfMsg != "" then
      LocalResult(cached, line[1], UNKNOWN, false, stateMsg + perfMsg + "Output is: " + text, perfdata)
    else
      LocalResult(cached, line[1], if raw.Passive? then OK else StateOf(raw.n), raw.Passive?, text, perfdata)
  }

  /** The text and state of a valid line: the joined text with escaped newlines restored,
      prefixed by the messages and with state UNKNOWN when there are any, otherwise the
      state of its token. */
  lemma LineResultText(cached: Option<CacheInfo>, line: seq<string>, ext: Externals)
    requires IsValidLine(line)
    ensures var r := LineResult(cached, line, ext);
      var stateMsg, perfMsg := SanitizeState(line[0]).1, PerfTxt(line[2], ext).1;
      var text := UnescapeNewlines(Join(line[3..], " "));
      stateMsg != "" || perfMsg != "" ==>
        r.state == UNKNOWN && r.text == stateMsg + perfMsg + "Output is: " + text
    ensures var r := LineResult(cached, line, ext);
      SanitizeState(line[0]).1 == "" && PerfTxt(line[2], ext).1 == "" ==>
        r.text == UnescapeNewlines(Join(line[3..], " ")) &&
        r.state == (if line[0] == "P" then OK else StateOf(line[0][0] as int - '0' as int))
  {
  }

  /** One line of the section: its tokens, the cache prefix removed, then an error entry or
      a result. Exceptions from `shlex` and from the cache prefix propagate. */
  function ParseLine(line: seq<string>, now: real, ext: Externals): Result<LineOutcome>
  {
    match Tokens(line, ext)
    case Failure(e) => Failure(e)
    case Success(tokens) =>
      match ParseCache(tokens, now, ext)
      case Failure(e) => Failure(e)
      case Success((cached, stripped)) =>
        if !IsValidLine(stripped) then
          Success(Invalid(LocalError(Join(stripped, " "), GetViolationReason(stripped))))
        else Success(Valid(LineResult(cached, stripped, ext)))
  }

  /** The outcome of every line of the table, in order. */
  function LineOutcomes(table: seq<seq<string>>, now: real, ext: Externals): (r: seq<Result<LineOutcome>>)
    ensures |r| == |table|
  {
    seq(|table|, i requires 0 <= i < |table| => ParseLine(table[i], now, ext))
  }

  /** The section the loop of `parse_local_pure` builds from the line outcomes: errors
      appended, results stored under their item, the first exception ending it. */
  function Collect(outcomes: seq<Result<LineOutcome>>): Result<LocalSection>
  {
    if outcomes == [] then Success(LocalSection([], map[]))
    else
      match Collect(outcomes[..|outcomes| - 1])
      case Failure(e) => Failure(e)
      case Success(section) =>
        match outcomes[|outcomes| - 1]
        case Failure(e) => Failure(e)
        case Success(Invalid(error)) => Success(section.(errors := section.errors + [error]))
        case Success(Valid(result)) => Success(section.(data := section.data[result.item := result]))
  }

  /** `parse_local_pure` as a function. */
  function ParseLocal(table: seq<seq<string>>, now: real, ext: Externals): Result<LocalSection>
  {
    Collect(LineOutcomes(table, now, ext))
  }

  /** `parse_local_pure`. */
  method ParseLocalPure(table: seq<seq<string>>, now: real, ext: Externals) returns (r: Result<LocalSection>)
    ensures r == ParseLocal(table, now, ext)
  {
    ghost var outcomes := LineOutcomes(table, now, ext);
    var errors: seq<LocalError> := [];
    var data: map<string, LocalResult> := map[];
    for i := 0 to |table|
      invariant Collect(outcomes[..i]) == Success(LocalSection(errors, data))
    {
      CollectNext(outcomes, i, LocalSection(errors, data));
      var line := ParseLine(table[i], now, ext);
      if line.Failure? {
        CollectFailure(outcomes, i + 1);
        return Failure(line.error);
      }
      match line.value
      case Invalid(error) =>
        errors := errors + [error];
      case Valid(result) =>
        data := data[result.item := result];
    }
    assert outcomes[..|table|] == outcomes;
    return Success(LocalSection(errors, data));
  }

  /** One more outcome: an exception ends the section, an invalid line adds its error, a
      valid line stores its result under its item. */
  lemma CollectNext(outcomes: seq<Result<LineOutcome>>, i: nat, section: LocalSection)
    requires i < |outcomes| && Collect(outcomes[..i]) == Success(section)
    ensures outcomes[i].Failure? ==> Collect(outcomes[..i + 1]) == Failure(outcomes[i].error)
    ensures outcomes[i].Success? && outcomes[i].value.Invalid? ==>
      Collect(outcomes[..i + 1]) == Success(section.(errors := section.errors + [outcomes[i].value.error]))
    ensures outcomes[i].Success? && outcomes[i].value.Valid? ==>
      var result := outcomes[i].value.result;
      Collect(outcomes[..i + 1]) == Success(section.(data := section.data[result.item := result]))
  {
    assert outcomes[..i + 1][..i] == outcomes[..i];
  }

  /** Once the outcomes of a prefix fail, all of them fail with the same exception. */
  lemma {:induction false} CollectFailure(outcomes: seq<Result<LineOutcome>>, i: nat)
    requires i <= |outcomes|
    requires Collect(outcomes[..i]).Failure?
    ensures Collect(outcomes) == Collect(outcomes[..i])
    decreases |outcomes| - i
  {
    if i < |outcomes| {
      assert outcomes[..i + 1][..i] == outcomes[..i];
      CollectFailure(outcomes, i + 1);
    } else {
      assert outcomes[..i] == outcomes;
    }
  }

  /** The parse raises exactly when one of the lines does, and then with the exception of
      the first such line. */
  lemma {:induction false} CollectFailsAtFirstFailure(outcomes: seq<Result<LineOutcome>>)
    ensures Collect(outcomes).Success? <==> forall i | 0 <= i < |outcomes| :: outcomes[i].Success?
    ensures forall i | 0 <= i < |outcomes| && outcomes[i].Failure? ::
      (forall j | 0 <= j < i :: outcomes[j].Success?) ==> Collect(outcomes) == Failure(outcomes[i].error)
  {
    if outcomes != [] {
      var n := |outcomes| - 1;
      CollectFailsAtFirstFailure(outcomes[..n]);
      forall i | 0 <= i < n ensures outcomes[..n][i] == outcomes[i] {
      }
    }
  }

  /** The line outcomes of a table none of whose lines raises. */
  function Outcomes(outcomes: seq<Result<LineOutcome>>): (r: seq<LineOutcome>)
    requires forall i | 0 <= i < |outcomes| :: outcomes[i].Success?
    ensures |r| == |outcomes|
  {
    seq(|outcomes|, i requires 0 <= i < |outcomes| => outcomes[i].value)
  }

  /** The errors of the invalid lines, in order. */
  function InvalidErrors(outcomes: seq<LineOutcome>): seq<LocalError>
  {
    if outcomes == [] then []
    else (if outcomes[0].Invalid? then [outcomes[0].error] else []) + InvalidErrors(outcomes[1..])
  }

  lemma {:induction false} InvalidErrorsSnoc(outcomes: seq<LineOutcome>, o: LineOutcome)
    ensures InvalidErrors(outcomes + [o]) == InvalidErrors(outcomes) + (if o.Invalid? then [o.error] else [])
  {
    if outcomes != [] {
      assert (outcomes + [o])[1..] == outcomes[1..] + [o];
      InvalidErrorsSnoc(outcomes[1..], o);
    }
  }

  /** The last step of the loop when no line raises. */
  lemma CollectStep(outcomes: seq<Result<LineOutcome>>)
    requires outcomes != []
    requires forall i | 0 <= i < |outcomes| :: outcomes[i].Success?
    ensures var n := |outcomes| - 1;
      (forall i | 0 <= i < n :: outcomes[..n][i].Success?) &&
      Outcomes(outcomes[..n]) == Outcomes(outcomes)[..n] &&
      Collect(outcomes[..n]).Success? && Collect(outcomes).Success? &&
      var before, after := Collect(outcomes[..n]).value, Collect(outcomes).value;
      match outcomes[n].value
      case Invalid(error) => after == before.(errors := before.errors + [error])
      case Valid(result) => after == before.(data := before.data[result.item := result])
  {
    var n := |outcomes| - 1;
    forall i | 0 <= i < n ensures outcomes[..n][i] == outcomes[i] {
    }
    CollectFailsAtFirstFailure(outcomes[..n]);
  }

  /** When no line raises, the errors are those of the invalid lines, in order. */
  lemma {:induction false} CollectErrors(outcomes: seq<Result<LineOutcome>>)
    requires forall i | 0 <= i < |outcomes| :: outcomes[i].Success?
    ensures Collect(outcomes).Success?
    ensures Collect(outcomes).value.errors == InvalidErrors(Outcomes(outcomes))
  {
    CollectFailsAtFirstFailure(outcomes);
    if outcomes != [] {
      var n := |outcomes| - 1;
      var lines := Outcomes(outcomes);
      CollectStep(outcomes);
      CollectErrors(outcomes[..n]);
      assert lines == lines[..n] + [lines[n]];
      InvalidErrorsSnoc(lines[..n], lines[n]);
    }
  }

  /** A line outcome that stores a result under `item`. */
  predicate NamesItem(o: LineOutcome, item: string)
  {
    o.Valid? && o.result.item == item
  }

  /** When no line raises, the items of the section are those of the valid lines: invalid
      lines add no data. */
  lemma {:induction false} CollectItems(outcomes: seq<Result<LineOutcome>>)
    requires forall i | 0 <= i < |outcomes| :: outcomes[i].Success?
    ensures Collect(outcomes).Success?
    ensures forall item :: item in Collect(outcomes).value.data <==>
      exists i | 0 <= i < |outcomes| :: NamesItem(Outcomes(outcomes)[i], item)
  {
    CollectFailsAtFirstFailure(outcomes);
    if outcomes != [] {
      var n := |outcomes| - 1;
      var lines := Outcomes(outcomes);
      CollectStep(outcomes);
      CollectItems(outcomes[..n]);
      var data := Collect(outcomes).value.data;
      forall item ensures item in data <==> exists i | 0 <= i < |outcomes| :: NamesItem(lines[i], item) {
        if exists i | 0 <= i < |outcomes| :: NamesItem(lines[i], item) {
          var i :| 0 <= i < |outcomes| && NamesItem(lines[i], item);
          if i < n {
            assert NamesItem(Outcomes(outcomes[..n])[i], item);
          }
        }
        if item in Collect(outcomes[..n]).value.data {
          var i :| 0 <= i < n && NamesItem(Outcomes(outcomes[..n])[i], item);
          assert NamesItem(lines[i], item);
        } else if item in data {
          assert NamesItem(lines[n], item);
        }
      }
    }
  }

  /** When no line raises, an item maps to the result of the last valid line naming it:
      later lines overwrite earlier ones. */
  lemma {:induction false} CollectLastWins(outcomes: seq<Result<LineOutcome>>, i: nat)
    requires forall k | 0 <= k < |outcomes| :: outcomes[k].Success?
    requires i < |outcomes| && outcomes[i].value.Valid?
    requires forall j | i < j < |outcomes| :: !NamesItem(outcomes[j].value, outcomes[i].value.result.item)
    ensures Collect(outcomes).Success?
    ensures var result := outcomes[i].value.result;
      result.item in Collect(outcomes).value.data && Collect(outcomes).value.data[result.item] == result
  {
    var n := |outcomes| - 1;
    CollectStep(outcomes);
    if i < n {
      var init := outcomes[..n];
      assert init[i] == outcomes[i];
      forall j | i < j < n ensures !NamesItem(init[j].value, init[i].value.result.item) {
        assert init[j] == outcomes[j];
      }
      CollectLastWins(init, i);
    }
  }

  // ---------------------------------------------------------------- the documented examples

  /** The tokens of the documented line `0 "Service Name" - arbitrary info text`. */
  predicate ExampleTokens(tokens: seq<string>)
  {
    tokens == ["0", "Service Name", "-", "arbitrary", "info", "text"]
  }

  /** The result both documented examples store. */
  function ExampleResult(cached: Option<CacheInfo>): LocalResult
  {
    LocalResult(cached, "Service Name", OK, false, "arbitrary info text", [])
  }

  /** A text without a backslash has no escaped newline to restore. */
  lemma NoBackslashNoEscape(s: string)
    requires '\\' !in s
    ensures UnescapeNewlines(s) == s
  {
    UnescapeIdentity(s);
  }

  /** A table of one valid line holds that line's result under its item. */
  lemma SingleLine(table: seq<seq<string>>, now: real, ext: Externals)
    requires |table| == 1 && ParseLine(table[0], now, ext).Success? && ParseLine(table[0], now, ext).value.Valid?
    ensures var result := ParseLine(table[0], now, ext).value.result;
      ParseLocal(table, now, ext) == Success(LocalSection([], map[result.item := result]))
  {
    var outcomes := LineOutcomes(table, now, ext);
    var result := ParseLine(table[0], now, ext).value.result;
    assert outcomes == [Success(Valid(result))];
    assert outcomes[..0] == [];
    assert Collect(outcomes) == Success(LocalSection([], map[][result.item := result]));
  }

  lemma ExampleLine(cached: Option<CacheInfo>, tokens: seq<string>, ext: Externals)
    requires ExampleTokens(tokens)
    ensures IsValidLine(tokens) && LineResult(cached, tokens, ext) == ExampleResult(cached)
  {
    ExampleText(tokens);
    assert SanitizeState(tokens[0]) == (Code(0), "");
    assert PerfTxt(tokens[2], ext) == ([], "");
  }

  lemma ExampleText(tokens: seq<string>)
    requires ExampleTokens(tokens)
    ensures UnescapeNewlines(Join(tokens[3..], " ")) == "arbitrary info text"
  {
    var words := tokens[3..];
    assert words == ["arbitrary", "info", "text"];
    assert words[1..] == ["info", "text"] && words[1..][1..] == ["text"];
    assert Join(words[1..], " ") == "info text";
    assert Join(words, " ") == "arbitrary info text";
    NoBackslashNoEscape("arbitrary info text");
  }

  /** The first example of `parse_local_pure`: a line without cache information, whose
      single string splits into the state, the item, `-` for no performance data and the text. */
  lemma ParseLocalExample(row: string, tokens: seq<string>, now: real, ext: Externals)
    requires row == "0 \"Service Name\" - arbitrary info text"
    requires ExampleTokens(tokens) && ext.shlexSplit(row) == Some(tokens)
    ensures ParseLocal([[row]], now, ext) == Success(LocalSection([], map["Service Name" := ExampleResult(None)]))
  {
    ExampleLine(None, tokens, ext);
    assert ParseCache(tokens, now, ext) == Success((None, tokens));
    assert ParseLine([row], now, ext) == Success(Valid(ExampleResult(None)));
    SingleLine([[row]], now, ext);
  }

  /** The second example: the same line behind `cached(1617883538,1617883538)`, parsed at
      that very time, is cached data of age 0 that has used 0 % of its interval. */
  lemma ParseLocalCachedExample(row: string, stamp: string, tokens: seq<string>, now: real, ext: Externals)
    requires row == "cached(1617883538,1617883538) 0 \"Service Name\" - arbitrary info text"
    requires stamp == "1617883538" && now == 1617883538.0 && ext.parseFloat(stamp) == Some(now)
    requires ExampleTokens(tokens) && ext.shlexSplit(row) == Some([CacheToken(stamp, stamp)] + tokens)
    ensures var info := CacheInfo(0.0, 0.0, 1617883538.0);
      ParseLocal([[row]], now, ext) == Success(LocalSection([], map["Service Name" := ExampleResult(Some(info))]))
  {
    var info := CacheInfo(0.0, 0.0, 1617883538.0);
    var line := [CacheToken(stamp, stamp)] + tokens;
    assert ',' !in stamp;
    CreatedNow(stamp, tokens, now, ext);
    ExampleLine(Some(info), tokens, ext);
    ParseLineValid([row], now, ext, line, Some(info), tokens);
    SingleLine([[row]], now, ext);
  }

  /** Data created at the very moment of parsing has age 0 and has used 0 % of its interval. */
  lemma CreatedNow(stamp: string, tokens: seq<string>, now: real, ext: Externals)
    requires ',' !in stamp && ext.parseFloat(stamp) == Some(now) && now != 0.0
    ensures ParseCache([CacheToken(stamp, stamp)] + tokens, now, ext) ==
            Success((Some(CacheInfo(0.0, 0.0, now)), tokens))
  {
    CacheRoundTrip(stamp, stamp, tokens, now, ext);
    assert now - now == 0.0 && 100.0 * (now - now) / now == 0.0;
  }

  /** A line whose tokens, once the cache prefix is taken off, form a valid line. */
  lemma ParseLineValid(line: seq<string>, now: real, ext: Externals, tokens: seq<string>,
                       cached: Option<CacheInfo>, stripped: seq<string>)
    requires Tokens(line, ext) == Success(tokens)
    requires ParseCache(tokens, now, ext) == Success((cached, stripped))
    requires IsValidLine(stripped)
    ensures ParseLine(line, now, ext) == Success(Valid(LineResult(cached, stripped, ext)))
  {
  }
}
