/**
 * Microsoft.Extensions.Logging.LogLevel, an enum over int: the named levels and the
 * integer order that G4Logger compares them by.
 */
module LogLevels {

  newtype LogLevel = x: int | -0x8000_0000 <= x < 0x8000_0000

  const Trace: LogLevel := 0
  const Debug: LogLevel := 1
  const Information: LogLevel := 2
  const Warning: LogLevel := 3
  const Error: LogLevel := 4
  const Critical: LogLevel := 5
  const None: LogLevel := 6
}

/**
 * The decisions and the text layout of G4Logger that do not touch the clock, the
 * machine, the configuration files or the trace listeners: the level and event-id
 * filters, the level abbreviations, the column padding, the human-readable entry and
 * the merge of a structured state into the entry's fields.
 */
module Logger {
  import opened Wrappers
  import opened Chars
  import opened Strings
  import opened Dictionaries
  import L = LogLevels

  type LogLevel = L.LogLevel

  /** The part of G4LoggerSettings the filters read: the per-logger levels (null when
      the configuration gave none) and the event id to keep (0 keeps every event). */
  datatype Settings = Settings(logLevel: Option<Dict<LogLevel>>, eventId: int)

  // ------------------------------------------------------------ ConfirmLogLevel

  /** `settings.LogLevel ?? { ["Default"] = Information }` (case-insensitive). */
  function Configuration(settings: Settings): (config: Dict<LogLevel>)
    ensures settings.logLevel.Some? ==> config == settings.logLevel.value
    ensures settings.logLevel.None? ==> config.ignoreCase && config.entries == [("Default", L.Information)]
  {
    if settings.logLevel.Some? then settings.logLevel.value
    else Set(Empty(true), "Default", L.Information)
  }

  /** `config.ContainsKey(key) && config[key].Equals(level)` */
  predicate ConfiguredAs(config: Dict<LogLevel>, key: string, level: LogLevel) {
    ContainsKey(config, key) && Get(config, key).value == level
  }

  /** ConfirmLogLevel: None is always off; Information and above are always on; a lower
      level is on only where it is the level configured for the logger or for "Default". */
  function ConfirmLogLevel(settings: Settings, logName: string, logLevel: LogLevel): (enabled: bool)
    ensures logLevel == L.None ==> !enabled
    ensures logLevel != L.None && logLevel >= L.Information ==> enabled
    ensures logLevel < L.Information ==>
      (enabled <==> Get(Configuration(settings), logName) == Some(logLevel)
                    || Get(Configuration(settings), "Default") == Some(logLevel))
  {
    if logLevel == L.None then false
    else
      var logConfiguration := Configuration(settings);
      var isKey := ConfiguredAs(logConfiguration, logName, logLevel);
      var isDefault := ConfiguredAs(logConfiguration, "Default", logLevel);
      isKey || isDefault || logLevel >= L.Information
  }

  /** Without a configuration, Default is Information, so exactly the levels from
      Information up (None excepted) are on: Trace and Debug are off for every logger. */
  lemma {:induction false} DefaultConfiguration(settings: Settings, logName: string, logLevel: LogLevel)
    requires settings.logLevel.None?
    ensures ConfirmLogLevel(settings, logName, logLevel) <==> logLevel != L.None && logLevel >= L.Information
  {
    var config := Configuration(settings);
    if logLevel < L.Information {
      SetThenGet(Empty<LogLevel>(true), "Default", L.Information, logName);
      SetThenGet(Empty<LogLevel>(true), "Default", L.Information, "Default");
      assert Get(config, logName) != Some(logLevel);
    }
  }

  /** The configured level for the logger's own name enables that level, even below
      Information. */
  lemma {:induction false} ConfiguredLevelEnabled(settings: Settings, logName: string, logLevel: LogLevel)
    requires settings.logLevel.Some? && logLevel != L.None
    requires Get(settings.logLevel.value, logName) == Some(logLevel)
    ensures ConfirmLogLevel(settings, logName, logLevel)
  {
  }

  // ------------------------------------------------------------ the gate of Log

  /** The event-id check in Log: a non-zero configured id keeps only that event. */
  function EventIdAdmits(configured: int, eventId: int): (admits: bool)
    ensures configured == 0 ==> admits
    ensures configured != 0 ==> (admits <==> eventId == configured)
  {
    !(configured != 0 && configured != eventId)
  }

  /** The two early returns of Log: an entry is written only when its level is enabled
      and its event id passes the filter. */
  function Admits(settings: Settings, logName: string, logLevel: LogLevel, eventId: int): (admits: bool)
    ensures admits ==> logLevel != L.None
    ensures admits ==> settings.eventId == 0 || settings.eventId == eventId
    ensures settings.eventId == 0 && logLevel != L.None && logLevel >= L.Information ==> admits
  {
    ConfirmLogLevel(settings, logName, logLevel) && EventIdAdmits(settings.eventId, eventId)
  }

  // ------------------------------------------------------------ GetLogLevel

  /** GetLogLevel: the three-letter abbreviation, TRC for every unnamed value. */
  function GetLogLevel(level: LogLevel): (abbreviation: string)
    ensures |abbreviation| == 3
    ensures level == L.Critical <==> abbreviation == "CRT"
    ensures level == L.Debug <==> abbreviation == "DBG"
    ensures level == L.Error <==> abbreviation == "ERR"
    ensures level == L.Information <==> abbreviation == "INF"
    ensures level == L.Warning <==> abbreviation == "WRN"
    ensures !(L.Debug <= level <= L.Critical) <==> abbreviation == "TRC"
  {
    if level == L.Critical then "CRT"
    else if level == L.Debug then "DBG"
    else if level == L.Error then "ERR"
    else if level == L.Information then "INF"
    else if level == L.Trace then "TRC"
    else if level == L.Warning then "WRN"
    else "TRC"
  }

  /** The six named levels from Trace to Critical get six different abbreviations. */
  lemma {:induction false} AbbreviationsDistinct(a: LogLevel, b: LogLevel)
    requires L.Trace <= a <= L.Critical && L.Trace <= b <= L.Critical
    ensures GetLogLevel(a) == GetLogLevel(b) ==> a == b
  {
  }

  // ------------------------------------------------------------ GetIndentation

  /** GetIndentation: `new string(' ', maxLength - key.Length)`, which throws (None)
      for a negative count. `key.Length` counts UTF-16 code units. */
  function GetIndentation(key: string, maxLength: int): (indent: Option<string>)
    ensures indent.Some? <==> Utf16Length(key) <= maxLength
    ensures indent.Some? ==> Utf16Length(key) + |indent.value| == maxLength
    ensures indent.Some? ==> forall i :: 0 <= i < |indent.value| ==> indent.value[i] == ' '
  {
    if maxLength - Utf16Length(key) < 0 then None
    else Some(seq(maxLength - Utf16Length(key), _ => ' '))
  }

  /** A key outside the Basic Multilingual Plane is two code units long: it takes up the
      whole of a width of 2 and does not fit in a width of 1. */
  lemma {:induction false} SurrogatePairIndentation()
    ensures GetIndentation("\U{1F600}", 2) == Some([])
    ensures GetIndentation("\U{1F600}", 1).None?
  {
    assert Utf16Length("\U{1F600}") == 2 + Utf16Length([]);
  }

  /** `keys.Max(i => i.Length)`, in UTF-16 code units, which throws (None) for no keys. */
  function MaxLength(keys: seq<string>): (m: Option<nat>)
    ensures m.None? <==> keys == []
    ensures m.Some? ==> forall i :: 0 <= i < |keys| ==> Utf16Length(keys[i]) <= m.value
    ensures m.Some? ==> exists i :: 0 <= i < |keys| && Utf16Length(keys[i]) == m.value
  {
    if keys == [] then None
    else
      match MaxLength(keys[1..])
      case None => Some(Utf16Length(keys[0]))
      case Some(n) =>
        assert forall i :: 1 <= i < |keys| ==> keys[i] == keys[1..][i - 1];
        if Utf16Length(keys[0]) >= n then Some(Utf16Length(keys[0]))
        else
          var j :| 0 <= j < |keys[1..]| && Utf16Length(keys[1..][j]) == n;
          assert keys[j + 1] == keys[1..][j];
          Some(n)
  }

  /** A property line: four spaces, the key, its padding, ": ", the value, a new line. */
  function KeyLine(key: string, indent: string, value: string, newLine: string): string {
    "    " + key + indent + ": " + value + newLine
  }

  /** Appending the pieces of a property line one by one appends the line. */
  lemma {:induction false} AppendKeyLine(t: string, key: string, indent: string, value: string, newLine: string)
    ensures t + "    " + key + indent + ": " + value + newLine == t + KeyLine(key, indent, value, newLine)
  {
    ConcatAssoc(t, "    ", key);
    ConcatAssoc(t, "    " + key, indent);
    ConcatAssoc(t, "    " + key + indent, ": ");
    ConcatAssoc(t, "    " + key + indent + ": ", value);
    ConcatAssoc(t, "    " + key + indent + ": " + value, newLine);
  }

  /** With `maxLength` at least the key's length, the line starts with four spaces and the
      key, padded with spaces up to the ':' and its space, then the value; the text before
      the ':' is 4 + maxLength UTF-16 code units long whatever the key: all the colons of
      an entry line up. */
  lemma {:induction false} KeyLineAligned(key: string, maxLength: int, value: string, newLine: string)
    requires Utf16Length(key) <= maxLength
    ensures var indent := GetIndentation(key, maxLength).value;
      var line := KeyLine(key, indent, value, newLine);
      var c := 4 + |key| + |indent|;
      && |line| == c + 2 + |value| + |newLine|
      && line[..4] == "    " && line[4..4 + |key|] == key
      && (forall i :: 4 + |key| <= i < c ==> line[i] == ' ')
      && line[c] == ':' && line[c + 1] == ' '
      && line[c + 2..] == value + newLine
      && Utf16Length(line[..c]) == 4 + maxLength
  {
    var indent := GetIndentation(key, maxLength).value;
    var line, c := KeyLine(key, indent, value, newLine), 4 + |key| + |indent|;
    assert Utf16Length(line[..c]) == 4 + maxLength by {
      AlignedWidth(key, indent, value, newLine, maxLength);
    }
    KeyLineLayout(key, indent, value, newLine);
  }

  /** The text before the ':' of a line padded to `maxLength` is 4 + maxLength units wide. */
  lemma {:induction false} AlignedWidth(key: string, indent: string, value: string, newLine: string, maxLength: int)
    requires forall i :: 0 <= i < |indent| ==> indent[i] == ' '
    requires Utf16Length(key) + |indent| == maxLength
    ensures Utf16Length(KeyLine(key, indent, value, newLine)[..4 + |key| + |indent|]) == 4 + maxLength
  {
    var line := KeyLine(key, indent, value, newLine);
    assert line == ("    " + key + indent) + (": " + value + newLine);
    assert line[..4 + |key| + |indent|] == "    " + key + indent;
    SpacedWidth(key, indent);
  }

  /** Where each piece of a property line lies, for a padding of spaces. */
  lemma {:induction false} KeyLineLayout(key: string, indent: string, value: string, newLine: string)
    requires forall i :: 0 <= i < |indent| ==> indent[i] == ' '
    ensures var line := KeyLine(key, indent, value, newLine);
      var c := 4 + |key| + |indent|;
      && |line| == c + 2 + |value| + |newLine|
      && line[..4] == "    " && line[4..4 + |key|] == key
      && (forall i :: 4 + |key| <= i < c ==> line[i] == ' ')
      && line[c] == ':' && line[c + 1] == ' '
      && line[c + 2..] == value + newLine
      && line[..c] == "    " + key + indent
  {
    var line := KeyLine(key, indent, value, newLine);
    var c := 4 + |key| + |indent|;
    assert line == "    " + key + indent + ": " + (value + newLine);
    forall i | 4 + |key| <= i < c ensures line[i] == ' ' {
      assert line[i] == indent[i - 4 - |key|];
    }
  }

  /** Four spaces, the key and a padding of spaces: the width is the key's plus one unit
      per space. */
  lemma {:induction false} SpacedWidth(key: string, indent: string)
    requires forall i :: 0 <= i < |indent| ==> indent[i] == ' '
    ensures Utf16Length("    " + key + indent) == 4 + Utf16Length(key) + |indent|
  {
    Utf16LengthConcat("    " + key, indent);
    Utf16LengthConcat("    ", key);
    assert Utf16Length("    ") == 4;
    assert Utf16Length(indent) == |indent|;
  }

  // ------------------------------------------------------------ the readable entry

  /** An object's text: `$"{value}"` and StringBuilder.Append(object) give "" for null. */
  function Text(value: Option<string>): string {
    if value.Some? then value.value else []
  }

  /** The keys ConvertToReadableString leaves out of the detailed lines (ordinal match). */
  const ExcludedKeys: seq<string> := ["Logger", "LogLevel", "TimeStamp", "MachineName", "Exception", "Message"]

  /** Every key the message holds is at most `maxLength` long. */
  ghost predicate Fits(logMessage: Dict<Option<string>>, maxLength: int) {
    forall k :: ContainsKey(logMessage, k) ==> Utf16Length(k) <= maxLength
  }

  /** The local AddKey: the line for `key` with the value stored under it. */
  function DefaultLine(logMessage: Dict<Option<string>>, maxLength: int, key: string, newLine: string): string
    requires ContainsKey(logMessage, key) && Utf16Length(key) <= maxLength
  {
    KeyLine(key, GetIndentation(key, maxLength).value, Text(Get(logMessage, key).value), newLine)
  }

  /** The line for `key` when the message holds it, nothing otherwise. */
  function OptionalLine(logMessage: Dict<Option<string>>, maxLength: int, key: string, newLine: string): string
    requires Fits(logMessage, maxLength)
  {
    if ContainsKey(logMessage, key) then DefaultLine(logMessage, maxLength, key, newLine) else []
  }

  /** The lines AddDefaults appends: Logger, LogLevel, TimeStamp, MachineName and
      Message, in that order, each only when present. */
  function DefaultLines(logMessage: Dict<Option<string>>, maxLength: int, newLine: string): string
    requires Fits(logMessage, maxLength)
  {
    OptionalLine(logMessage, maxLength, "Logger", newLine)
    + OptionalLine(logMessage, maxLength, "LogLevel", newLine)
    + OptionalLine(logMessage, maxLength, "TimeStamp", newLine)
    + OptionalLine(logMessage, maxLength, "MachineName", newLine)
    + OptionalLine(logMessage, maxLength, "Message", newLine)
  }

  /** The entries that get a detailed line, in enumeration order. */
  function Pairs(entries: seq<(string, Option<string>)>): (pairs: seq<(string, Option<string>)>)
    ensures forall p :: p in pairs <==> p in entries && p.0 !in ExcludedKeys
  {
    if entries == [] then []
    else (if entries[0].0 in ExcludedKeys then [] else [entries[0]]) + Pairs(entries[1..])
  }

  /** The detailed lines for `pairs`; the value's new lines are removed. */
  function DetailLines(pairs: seq<(string, Option<string>)>, maxLength: int, newLine: string): string
    requires newLine != [] && forall i :: 0 <= i < |pairs| ==> Utf16Length(pairs[i].0) <= maxLength
  {
    if pairs == [] then []
    else
      var p := pairs[|pairs| - 1];
      DetailLines(pairs[..|pairs| - 1], maxLength, newLine)
      + KeyLine(p.0, GetIndentation(p.0, maxLength).value, Replace(Text(p.1), newLine, []), newLine)
  }

  const Rule := "----------------"

  /** AddExceptionEntry: a boxed heading, then the exception's text. */
  function ExceptionBlock(exception: string, newLine: string): string {
    Rule + newLine + "- Exception(s) -" + newLine + Rule + newLine + exception + newLine
  }

  /** The first line: the abbreviated level and the time stamp. */
  function Header(logLevel: LogLevel, timeStamp: string, newLine: string): string {
    GetLogLevel(logLevel) + " - " + timeStamp + newLine
  }

  /** The longest key bounds every key the message holds, and every detailed key. */
  lemma {:induction false} MaxLengthFits(logMessage: Dict<Option<string>>)
    requires logMessage.entries != []
    ensures var m := MaxLength(Keys(logMessage)).value;
      Fits(logMessage, m)
      && forall i :: 0 <= i < |Pairs(logMessage.entries)| ==> Utf16Length(Pairs(logMessage.entries)[i].0) <= m
  {
    var m := MaxLength(Keys(logMessage)).value;
    BoundFits(logMessage, m);
    BoundPairs(logMessage.entries, m);
  }

  /** A bound on the length of every stored key bounds every key the message holds. */
  lemma {:induction false} BoundFits(logMessage: Dict<Option<string>>, m: nat)
    requires forall i :: 0 <= i < |logMessage.entries| ==> Utf16Length(logMessage.entries[i].0) <= m
    ensures Fits(logMessage, m)
  {
    forall k | ContainsKey(logMessage, k) ensures Utf16Length(k) <= m {
      var j := IndexOf(logMessage, k).value;
      var key := logMessage.entries[j].0;
      assert Utf16Length(key) <= m;
      if logMessage.ignoreCase {
        Utf16LengthUpper(key);
        Utf16LengthUpper(k);
      }
    }
  }

  /** ... and every key that is written as a detail. */
  lemma {:induction false} BoundPairs(entries: seq<(string, Option<string>)>, m: nat)
    requires forall i :: 0 <= i < |entries| ==> Utf16Length(entries[i].0) <= m
    ensures forall i :: 0 <= i < |Pairs(entries)| ==> Utf16Length(Pairs(entries)[i].0) <= m
  {
    forall i | 0 <= i < |Pairs(entries)| ensures Utf16Length(Pairs(entries)[i].0) <= m {
      var p := Pairs(entries)[i];
      assert p in entries;
      var j :| 0 <= j < |entries| && entries[j] == p;
    }
  }

  /** ConvertToReadableString as a value; None where the source throws: a message with no
      keys (Max of nothing) or without a TimeStamp (the indexer). */
  function Readable(logLevel: LogLevel, logMessage: Dict<Option<string>>, newLine: string): (r: Option<string>)
    requires newLine != []
    ensures r.None? <==> logMessage.entries == [] || !ContainsKey(logMessage, "TimeStamp")
    ensures r.Some? ==> Header(logLevel, Text(Get(logMessage, "TimeStamp").value), newLine) <= r.value
    ensures r.Some? && Get(logMessage, "Exception").Some? && Get(logMessage, "Exception").value.Some? ==>
      var block := ExceptionBlock(Get(logMessage, "Exception").value.value, newLine);
      |block| <= |r.value| && r.value[|r.value| - |block|..] == block
    ensures r.Some? && !(Get(logMessage, "Exception").Some? && Get(logMessage, "Exception").value.Some?) ==> (
      MaxLengthFits(logMessage);
      var maxLength := MaxLength(Keys(logMessage)).value;
      r.value == Header(logLevel, Text(Get(logMessage, "TimeStamp").value), newLine)
        + DefaultLines(logMessage, maxLength, newLine)
        + DetailLines(Pairs(logMessage.entries), maxLength, newLine))
  {
    if logMessage.entries == [] || !ContainsKey(logMessage, "TimeStamp") then None
    else
      MaxLengthFits(logMessage);
      var maxLength := MaxLength(Keys(logMessage)).value;
      var header := Header(logLevel, Text(Get(logMessage, "TimeStamp").value), newLine);
      var defaults := DefaultLines(logMessage, maxLength, newLine);
      var details := DetailLines(Pairs(logMessage.entries), maxLength, newLine);
      var body := header + defaults + details;
      PrefixOfConcat(header, defaults, details);
      var exception := Get(logMessage, "Exception");
      if exception.Some? && exception.value.Some? then
        var block := ExceptionBlock(exception.value.value, newLine);
        PrefixOfConcat(header, defaults + details, block);
        ConcatAssoc(header, defaults, details);
        Some(body + block)
      else Some(body)
  }

  /** The first piece of a concatenation is a prefix of it, the last a suffix. */
  lemma {:induction false} PrefixOfConcat(a: string, b: string, c: string)
    ensures a <= a + b + c
    ensures (a + b + c)[|a + b + c| - |c|..] == c
  {
    assert (a + b + c)[..|a|] == a;
  }

  /** A one-character new line is gone from every detailed value. */
  lemma {:induction false} NewLineRemoved(s: string, c: char)
    ensures c !in Replace(s, [c], [])
    decreases |s|
  {
    if |s| >= 1 {
      NewLineRemoved(s[1..], c);
      if s[..1] != [c] {
        assert s[0] != c;
      }
    }
  }

  /** With the two-character new line "\r\n" a single pass of Replace can leave one: the
      pieces around a removed "\r\n" join up. */
  lemma {:induction false} CarriageReturnNewLineSurvives()
    ensures Replace("\r\r\n\n", "\r\n", []) == "\r\n"
  {
    var s := "\r\r\n\n";
    assert s[..2][1] == '\r';
    assert s[1..][..2] == "\r\n";
    assert s[1..][2..] == "\n";
    assert Replace("\n", "\r\n", []) == "\n";
  }

  // ------------------------------------------------------------ StringBuilder

  /** The StringBuilder the readable entry is written into; AppendLine ends with the
      platform's new line. */
  class StringBuilder {
    const newLine: string
    var text: string

    constructor (value: string, newLine: string)
      ensures text == value && this.newLine == newLine
    {
      this.newLine := newLine;
      text := value;
    }

    method Append(s: string)
      modifies this
      ensures text == old(text) + s
    {
      text := text + s;
    }

    method AppendLine(s: string)
      modifies this
      ensures text == old(text) + s + newLine
    {
      text := text + s + newLine;
    }
  }

  /** AddKey */
  method AddKey(logMessage: Dict<Option<string>>, maxLength: int, key: string, log: StringBuilder)
    requires ContainsKey(logMessage, key) && Utf16Length(key) <= maxLength
    modifies log
    ensures log.text == old(log.text) + DefaultLine(logMessage, maxLength, key, log.newLine)
  {
    var indent := GetIndentation(key, maxLength);
    var value := Text(Get(logMessage, key).value);
    AppendKeyLine(log.text, key, indent.value, value, log.newLine);
    log.Append("    ");
    log.Append(key);
    log.Append(indent.value);
    log.Append(": ");
    log.Append(value);
    log.AppendLine([]);
  }

  /** Appending five pieces one at a time appends their concatenation. */
  lemma {:induction false} ConcatFive(t: string, a: string, b: string, c: string, d: string, e: string)
    ensures t + a + b + c + d + e == t + (a + b + c + d + e)
  {
    ConcatAssoc(t, a, b);
    ConcatAssoc(t, a + b, c);
    ConcatAssoc(t, a + b + c, d);
    ConcatAssoc(t, a + b + c + d, e);
  }

  /** One `if (logMessage.ContainsKey(key)) AddKey(...)` block of AddDefaults. */
  method AddIfPresent(logMessage: Dict<Option<string>>, maxLength: int, key: string, log: StringBuilder)
    requires Fits(logMessage, maxLength)
    modifies log
    ensures log.text == old(log.text) + OptionalLine(logMessage, maxLength, key, log.newLine)
  {
    if ContainsKey(logMessage, key) {
      AddKey(logMessage, maxLength, key, log);
    }
  }

  /** AddDefaults: a line for each default key present, in the fixed order. Every present
      key must fit in `maxLength`, or GetIndentation throws. */
  method AddDefaults(logMessage: Dict<Option<string>>, maxLength: int, log: StringBuilder)
    requires Fits(logMessage, maxLength)
    modifies log
    ensures log.text == old(log.text) + DefaultLines(logMessage, maxLength, log.newLine)
  {
    AddIfPresent(logMessage, maxLength, "Logger", log);
    AddIfPresent(logMessage, maxLength, "LogLevel", log);
    AddIfPresent(logMessage, maxLength, "TimeStamp", log);
    AddIfPresent(logMessage, maxLength, "MachineName", log);
    AddIfPresent(logMessage, maxLength, "Message", log);
    ConcatFive(old(log.text),
      OptionalLine(logMessage, maxLength, "Logger", log.newLine),
      OptionalLine(logMessage, maxLength, "LogLevel", log.newLine),
      OptionalLine(logMessage, maxLength, "TimeStamp", log.newLine),
      OptionalLine(logMessage, maxLength, "MachineName", log.newLine),
      OptionalLine(logMessage, maxLength, "Message", log.newLine));
  }

  /** AddExceptionEntry */
  method AddExceptionEntry(exception: string, log: StringBuilder)
    modifies log
    ensures log.text == old(log.text) + ExceptionBlock(exception, log.newLine)
  {
    var t, nl := log.text, log.newLine;
    ConcatAssoc(t, Rule, nl);
    ConcatAssoc(t, Rule + nl, "- Exception(s) -");
    ConcatAssoc(t, Rule + nl + "- Exception(s) -", nl);
    ConcatAssoc(t, Rule + nl + "- Exception(s) -" + nl, Rule);
    ConcatAssoc(t, Rule + nl + "- Exception(s) -" + nl + Rule, nl);
    ConcatAssoc(t, Rule + nl + "- Exception(s) -" + nl + Rule + nl, exception);
    ConcatAssoc(t, Rule + nl + "- Exception(s) -" + nl + Rule + nl + exception, nl);
    log.AppendLine(Rule);
    log.AppendLine("- Exception(s) -");
    log.AppendLine(Rule);
    log.Append(exception);
    log.AppendLine([]);
  }

  /** The foreach over the detailed pairs: one property line each, with the value's new
      lines removed. */
  method AddDetails(pairs: seq<(string, Option<string>)>, maxLength: int, log: StringBuilder)
    requires log.newLine != [] && forall i :: 0 <= i < |pairs| ==> Utf16Length(pairs[i].0) <= maxLength
    modifies log
    ensures log.text == old(log.text) + DetailLines(pairs, maxLength, log.newLine)
  {
    ghost var before := log.text;
    for i := 0 to |pairs|
      invariant log.text == before + DetailLines(pairs[..i], maxLength, log.newLine)
    {
      var pair := pairs[i];
      var indent := GetIndentation(pair.0, maxLength);
      var message := Replace(Text(pair.1), log.newLine, []);
      assert pairs[..i + 1][..i] == pairs[..i];
      AppendKeyLine(log.text, pair.0, indent.value, message, log.newLine);
      ConcatAssoc(before, DetailLines(pairs[..i], maxLength, log.newLine), KeyLine(pair.0, indent.value, message, log.newLine));
      log.Append("    ");
      log.Append(pair.0);
      log.Append(indent.value);
      log.Append(": ");
      log.AppendLine(message);
    }
    assert pairs[..|pairs|] == pairs;
  }

  /** ConvertToReadableString; None where the source throws. */
  method ConvertToReadableString(logLevel: LogLevel, logMessage: Dict<Option<string>>, newLine: string)
    returns (r: Option<string>)
    requires newLine != []
    ensures r == Readable(logLevel, logMessage, newLine)
  {
    var keys := Keys(logMessage);
    var max := MaxLength(keys);
    if max.None? {
      return None;
    }
    var maxLength := max.value;
    var pairs := Pairs(logMessage.entries);
    var level := GetLogLevel(logLevel);
    var timeStamp := Get(logMessage, "TimeStamp");
    if timeStamp.None? {
      return None;
    }
    MaxLengthFits(logMessage);
    var log := new StringBuilder(level + " - " + Text(timeStamp.value) + newLine, newLine);
    AddDefaults(logMessage, maxLength, log);
    AddDetails(pairs, maxLength, log);
    var exception := Get(logMessage, "Exception");
    if exception.Some? && exception.value.Some? {
      AddExceptionEntry(exception.value.value, log);
    }
    r := Some(log.text);
  }

  // ------------------------------------------------------------ FormatFields

  /** The `state` of a Log call: a read-only list of key/value pairs (the structured
      values of a message template) or any other object, with its text `$"{state}"`. */
  datatype State =
    | KeyValuePairs(pairs: seq<(string, Option<string>)>, text: string)
    | Other(text: string)

  /** The regex ^\$\(.+\)$ without options: "$(", at least one character other than a
      line feed, ")", and the end of the text or a final line feed. */
  predicate IsCollectionText(s: string) {
    var body := if |s| > 0 && s[|s| - 1] == '\n' then s[..|s| - 1] else s;
    && |body| >= 4 && body[..2] == "$(" && body[|body| - 1] == ')'
    && forall i :: 2 <= i < |body| - 1 ==> body[i] != '\n'
  }

  const OriginalFormat := "{OriginalFormat}"

  /** The fields after copying the pairs in order, skipping {OriginalFormat} (any case). */
  function CopyPairs(fields: Dict<Option<string>>, pairs: seq<(string, Option<string>)>): (r: Dict<Option<string>>)
    ensures r.ignoreCase == fields.ignoreCase
    decreases |pairs|
  {
    if pairs == [] then fields
    else
      var p := pairs[|pairs| - 1];
      var d := CopyPairs(fields, pairs[..|pairs| - 1]);
      if EqualsIgnoreCase(p.0, OriginalFormat) then d else Set(d, p.0, p.1)
  }

  /** FormatFields as a value: the fields with the pairs merged in and Message turned into
      its text, or the fields unchanged when the state is not such a collection. */
  function FormattedFields(state: State, fields: Dict<Option<string>>): Dict<Option<string>> {
    if !state.KeyValuePairs? || !IsCollectionText(state.text) then fields
    else
      var copied := CopyPairs(fields, state.pairs);
      var message := Get(copied, "Message");
      Set(copied, "Message", Some(if message.Some? then Text(message.value) else []))
  }

  /** The value of the last pair whose key the comparer matches with `k` (skipping
      {OriginalFormat}), if any. */
  function LastPair(pairs: seq<(string, Option<string>)>, ignoreCase: bool, k: string): Option<Option<string>>
    decreases |pairs|
  {
    if pairs == [] then None
    else
      var p := pairs[|pairs| - 1];
      if !EqualsIgnoreCase(p.0, OriginalFormat) && SameKey(ignoreCase, p.0, k) then Some(p.1)
      else LastPair(pairs[..|pairs| - 1], ignoreCase, k)
  }

  /** After the copy a key reads as the last pair given for it, or as before. */
  lemma {:induction false} CopyPairsGet(fields: Dict<Option<string>>, pairs: seq<(string, Option<string>)>, k: string)
    ensures Get(CopyPairs(fields, pairs), k) ==
      match LastPair(pairs, fields.ignoreCase, k)
      case Some(v) => Some(v)
      case None => Get(fields, k)
    decreases |pairs|
  {
    if pairs != [] {
      var p := pairs[|pairs| - 1];
      var d := CopyPairs(fields, pairs[..|pairs| - 1]);
      CopyPairsGet(fields, pairs[..|pairs| - 1], k);
      if !EqualsIgnoreCase(p.0, OriginalFormat) {
        SetThenGet(d, p.0, p.1, k);
      }
    }
  }

  /** What FormatFields promises. A state that is not a key/value list whose text reads
      "$(...)" leaves the fields as they were. Otherwise Message ends up as text (its
      last value's text, or "" when there was none), and every other key reads as the
      last pair given for it, or as before when no pair names it. */
  lemma {:induction false} FormatFieldsSpec(state: State, fields: Dict<Option<string>>, k: string)
    ensures !state.KeyValuePairs? || !IsCollectionText(state.text) ==> FormattedFields(state, fields) == fields
    ensures state.KeyValuePairs? && IsCollectionText(state.text) ==>
      var r := FormattedFields(state, fields);
      var before := match LastPair(state.pairs, fields.ignoreCase, "Message")
        case Some(v) => Some(v)
        case None => Get(fields, "Message");
      && Get(r, "Message") == Some(Some(if before.Some? then Text(before.value) else []))
      && (!SameKey(fields.ignoreCase, "Message", k) ==>
            Get(r, k) == match LastPair(state.pairs, fields.ignoreCase, k)
              case Some(v) => Some(v)
              case None => Get(fields, k))
  {
    if state.KeyValuePairs? && IsCollectionText(state.text) {
      var copied := CopyPairs(fields, state.pairs);
      var message := Get(copied, "Message");
      var v := Some(if message.Some? then Text(message.value) else []);
      CopyPairsGet(fields, state.pairs, "Message");
      CopyPairsGet(fields, state.pairs, k);
      SetThenGet(copied, "Message", v, "Message");
      SetThenGet(copied, "Message", v, k);
    }
  }

  /** {OriginalFormat} is never copied: it reads as it did before. */
  lemma {:induction false} OriginalFormatSkipped(state: State, fields: Dict<Option<string>>)
    requires fields.ignoreCase
    ensures Get(FormattedFields(state, fields), OriginalFormat) == Get(fields, OriginalFormat)
  {
    if state.KeyValuePairs? && IsCollectionText(state.text) {
      var copied := CopyPairs(fields, state.pairs);
      OriginalFormatNotPaired(state.pairs);
      CopyPairsGet(fields, state.pairs, OriginalFormat);
      var message := Get(copied, "Message");
      SetThenGet(copied, "Message", Some(if message.Some? then Text(message.value) else []), OriginalFormat);
    }
  }

  lemma {:induction false} OriginalFormatNotPaired(pairs: seq<(string, Option<string>)>)
    ensures LastPair(pairs, true, OriginalFormat).None?
    decreases |pairs|
  {
    if pairs != [] {
      OriginalFormatNotPaired(pairs[..|pairs| - 1]);
    }
  }

  /** Dictionary<string, object>: the fields of a log entry, updated in place. */
  class Fields {
    var entries: Dict<Option<string>>

    constructor (entries: Dict<Option<string>>)
      ensures this.entries == entries
    {
      this.entries := entries;
    }

    /** The indexer's setter. */
    method Put(key: string, value: Option<string>)
      modifies this
      ensures entries == Set(old(entries), key, value)
    {
      entries := Set(entries, key, value);
    }

    /** TryGetValue */
    function TryGetValue(key: string): Option<Option<string>>
      reads this
    {
      Get(entries, key)
    }
  }

  /** FormatFields */
  method FormatFields(state: State, fields: Fields)
    modifies fields
    ensures fields.entries == FormattedFields(state, old(fields.entries))
  {
    var isDictionary := state.KeyValuePairs?;
    var isCollection := IsCollectionText(state.text);
    if !isDictionary || !isCollection {
      return;
    }
    var keyValuePairs := state.pairs;
    ghost var original := fields.entries;
    for i := 0 to |keyValuePairs|
      invariant fields.entries == CopyPairs(original, keyValuePairs[..i])
    {
      var entry := keyValuePairs[i];
      CopyPairsNext(original, keyValuePairs, i);
      if EqualsIgnoreCase(entry.0, OriginalFormat) {
        continue;
      }
      fields.Put(entry.0, entry.1);
    }
    assert keyValuePairs[..|keyValuePairs|] == keyValuePairs;
    var value := fields.TryGetValue("Message");
    fields.Put("Message", Some(if value.Some? then Text(value.value) else []));
  }

  lemma {:induction false} CopyPairsNext(fields: Dict<Option<string>>, pairs: seq<(string, Option<string>)>, i: nat)
    requires i < |pairs|
    ensures CopyPairs(fields, pairs[..i + 1]) ==
      if EqualsIgnoreCase(pairs[i].0, OriginalFormat) then CopyPairs(fields, pairs[..i])
      else Set(CopyPairs(fields, pairs[..i]), pairs[i].0, pairs[i].1)
  {
    assert pairs[..i + 1][..i] == pairs[..i];
  }
}
