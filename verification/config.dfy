/** Settings normalisation (`ConfigManager` in src/config.js).

    The parsed `settings.ini` is an input: a map from section to the section's key/value
    text. Reading and parsing the file are I/O; their failure is `None`. The IP-literal test
    `net.isIP` is a parameter. */
module Config {
  import opened Options
  import opened Text

  /** The content of `settings.ini` after `ini.parse`. */
  datatype IniFile = IniFile(sections: map<string, map<string, string>>)

  /** The normalised settings `getSettings` returns. Sizes and intervals are in the source's units:
      the interval in milliseconds, the file size in bytes. */
  datatype Settings = Settings(
    scanIps: seq<string>,
    targetAppPrefixes: seq<string>,
    automationInterval: int,
    debugMode: bool,
    windowWidth: int,
    windowHeight: int,
    logClearOnStart: bool,
    logFile: string,
    fontName: string,
    fontSize: int,
    maxLogHistory: int,
    maxLogFileSizeBytes: int)

  const MinIntervalSeconds: int := 60
  const MinWindowWidth: int := 1300
  const MinWindowHeight: int := 850
  const MegaByte: int := 1024 * 1024

  /** `loadSettings`: the parsed file, or `{General: {}}` when reading or parsing throws. */
  function LoadSettings(read: Option<IniFile>): (ini: IniFile)
    ensures read.Some? ==> ini == read.value
    ensures read.None? ==> ini.sections == map["General" := map[]]
  {
    match read
    case Some(f) => f
    case None => IniFile(map["General" := map[]])
  }

  /** `this.config.General || {}`. */
  function General(ini: IniFile): map<string, string> {
    if "General" in ini.sections then ini.sections["General"] else map[]
  }

  /** `c.key || fallback` for a text setting (a missing or empty value falls back). */
  function TextOr(c: map<string, string>, key: string, fallback: string): (r: string)
    ensures key in c && c[key] != "" ==> r == c[key]
    ensures !(key in c && c[key] != "") ==> r == fallback
  {
    if key in c && c[key] != "" then c[key] else fallback
  }

  /** `parseInt(c.key, radix)`; a missing key is `parseInt(undefined)`, which is `NaN`. */
  function ParseSetting(c: map<string, string>, key: string, radix: Radix): Option<int> {
    if key in c then ParseInt(c[key], radix) else None
  }

  /** `parseInt(…) || fallback`: `NaN` and `0` both fall back. */
  function NumberOr(parsed: Option<int>, fallback: int): (r: int)
    ensures parsed.Some? && parsed.value != 0 ==> r == parsed.value
    ensures parsed.None? || parsed.value == 0 ==> r == fallback
  {
    if parsed.Some? && parsed.value != 0 then parsed.value else fallback
  }

  /** `String(c.key).toLowerCase() === 'true'`; a missing key reads as "undefined". */
  predicate Flag(c: map<string, string>, key: string) {
    key in c && Lower(c[key]) == "true"
  }

  /** The trimmed pieces of a comma-separated list that pass `keep`, in their original order. */
  function KeepTrimmed(pieces: seq<string>, keep: string -> bool): (r: seq<string>)
    ensures forall k :: 0 <= k < |r| ==> keep(r[k])
  {
    if |pieces| == 0 then []
    else
      var t := Trim(pieces[0]);
      (if keep(t) then [t] else []) + KeepTrimmed(pieces[1..], keep)
  }

  /** Some piece of the list trims to `x`. */
  predicate IsPieceOf(x: string, pieces: seq<string>) {
    exists k :: 0 <= k < |pieces| && Trim(pieces[k]) == x
  }

  /** `idx` names, in increasing order, exactly the positions whose trimmed piece passes `keep`,
      and `r` holds those trimmed pieces, one for each position. */
  predicate SelectionAt(r: seq<string>, pieces: seq<string>, keep: string -> bool, idx: seq<int>) {
    Picks(r, pieces, keep, idx) && Increasing(idx) && Covers(pieces, keep, idx)
  }

  /** Entry `j` of `r` is the trimmed piece at position `idx[j]`, and it passes `keep`. */
  predicate Picks(r: seq<string>, pieces: seq<string>, keep: string -> bool, idx: seq<int>) {
    && |idx| == |r|
    && forall j :: 0 <= j < |idx| ==> 0 <= idx[j] < |pieces| && r[j] == Trim(pieces[idx[j]]) && keep(r[j])
  }

  predicate Increasing(idx: seq<int>) {
    forall i, j :: 0 <= i < j < |idx| ==> idx[i] < idx[j]
  }

  /** Every position whose trimmed piece passes `keep` is named. */
  predicate Covers(pieces: seq<string>, keep: string -> bool, idx: seq<int>) {
    forall k :: 0 <= k < |pieces| && keep(Trim(pieces[k])) ==> k in idx
  }

  /** `r` is the trimmed pieces that pass `keep`, in list order, each as often as it occurs. */
  ghost predicate KeptInOrder(r: seq<string>, pieces: seq<string>, keep: string -> bool) {
    exists idx :: SelectionAt(r, pieces, keep, idx)
  }

  predicate NonEmpty(s: string) {
    |s| > 0
  }

  /** The `ScanIPs` filter: `ip && net.isIP(ip)`. */
  function KeepIp(isIp: string -> bool): string -> bool {
    s => NonEmpty(s) && isIp(s)
  }

  /** The `ScanIPs` list: split on commas, trimmed, empties and non-addresses dropped. */
  function ScanIps(c: map<string, string>, isIp: string -> bool): (r: seq<string>)
    ensures forall k :: 0 <= k < |r| ==> |r[k]| > 0 && isIp(r[k])
    ensures forall x :: x in r <==> |x| > 0 && isIp(x) && IsPieceOf(x, Split(TextOr(c, "ScanIPs", ""), ','))
    ensures KeptInOrder(r, Split(TextOr(c, "ScanIPs", ""), ','), KeepIp(isIp))
  {
    var keep := KeepIp(isIp);
    var pieces := Split(TextOr(c, "ScanIPs", ""), ',');
    KeepTrimmedMembersAll(pieces, keep);
    KeepTrimmedInOrder(pieces, keep);
    KeepTrimmed(pieces, keep)
  }

  /** The `TargetAppPrefixes` list: split on commas, trimmed, empties dropped. */
  function TargetAppPrefixes(c: map<string, string>): (r: seq<string>)
    ensures forall k :: 0 <= k < |r| ==> |r[k]| > 0
    ensures forall x :: x in r <==> |x| > 0 && IsPieceOf(x, Split(TextOr(c, "TargetAppPrefixes", ""), ','))
    ensures KeptInOrder(r, Split(TextOr(c, "TargetAppPrefixes", ""), ','), NonEmpty)
  {
    var pieces := Split(TextOr(c, "TargetAppPrefixes", ""), ',');
    KeepTrimmedMembersAll(pieces, NonEmpty);
    KeepTrimmedInOrder(pieces, NonEmpty);
    KeepTrimmed(pieces, NonEmpty)
  }

  /** The automation interval in seconds: the decimal setting, 60 when it is missing,
      unparseable or zero, and never below 60. */
  function IntervalSeconds(c: map<string, string>): (r: int)
    ensures r >= MinIntervalSeconds
    ensures r > MinIntervalSeconds ==> ParseSetting(c, "AutomationIntervalSeconds", Decimal) == Some(r)
    ensures var p := ParseSetting(c, "AutomationIntervalSeconds", Decimal);
            p.Some? && p.value >= MinIntervalSeconds ==> r == p.value
    ensures var p := ParseSetting(c, "AutomationIntervalSeconds", Decimal);
            p.None? || p.value < MinIntervalSeconds ==> r == MinIntervalSeconds
  {
    var seconds := NumberOr(ParseSetting(c, "AutomationIntervalSeconds", Decimal), MinIntervalSeconds);
    if seconds < MinIntervalSeconds then MinIntervalSeconds else seconds
  }

  /** The automation interval in milliseconds: whole seconds, at least a minute. */
  function IntervalMillis(c: map<string, string>): (ms: int)
    ensures ms >= MinIntervalSeconds * 1000 && ms % 1000 == 0
    ensures ms / 1000 == IntervalSeconds(c)
  {
    var seconds := IntervalSeconds(c);
    assert (seconds * 1000) % 1000 == 0;
    seconds * 1000
  }

  /** `Math.max(parseInt(c.key) || floor, floor)`: the setting, never below its floor. */
  function AtLeast(c: map<string, string>, key: string, floor: int): (r: int)
    ensures r >= floor
    ensures r > floor ==> ParseSetting(c, key, Unspecified) == Some(r)
    ensures var p := ParseSetting(c, key, Unspecified);
            p.Some? && p.value != 0 && p.value >= floor ==> r == p.value
    ensures var p := ParseSetting(c, key, Unspecified);
            p.None? || p.value == 0 || p.value < floor ==> r == floor
  {
    var v := NumberOr(ParseSetting(c, key, Unspecified), floor);
    if v < floor then floor else v
  }

  /** `(parseInt(c.MaxLogFileSizeMB) || 10) * 1024 * 1024`: the rotation threshold in bytes. */
  function MaxLogFileSizeBytes(c: map<string, string>): (r: int)
    ensures r % MegaByte == 0 && r != 0
    ensures var p := ParseSetting(c, "MaxLogFileSizeMB", Unspecified);
            p.None? || p.value == 0 ==> r == 10 * MegaByte
    ensures var p := ParseSetting(c, "MaxLogFileSizeMB", Unspecified);
            p.Some? && p.value != 0 ==> r == p.value * MegaByte
  {
    NumberOr(ParseSetting(c, "MaxLogFileSizeMB", Unspecified), 10) * MegaByte
  }

  /** `getSettings`. */
  function GetSettings(ini: IniFile, isIp: string -> bool): (s: Settings)
    ensures s.automationInterval >= MinIntervalSeconds * 1000
    ensures s.automationInterval % 1000 == 0
    ensures s.windowWidth >= MinWindowWidth && s.windowHeight >= MinWindowHeight
    ensures s.maxLogFileSizeBytes % MegaByte == 0 && s.maxLogFileSizeBytes != 0
    ensures |s.logFile| > 0 && |s.fontName| > 0
    ensures s.fontSize != 0 && s.maxLogHistory != 0
    ensures forall k :: 0 <= k < |s.scanIps| ==> |s.scanIps[k]| > 0 && isIp(s.scanIps[k])
    ensures forall k :: 0 <= k < |s.targetAppPrefixes| ==> |s.targetAppPrefixes[k]| > 0
    ensures var c := General(ini);
            && s.scanIps == ScanIps(c, isIp) && s.targetAppPrefixes == TargetAppPrefixes(c)
            && s.automationInterval == IntervalMillis(c)
            && s.windowWidth == AtLeast(c, "WindowWidth", MinWindowWidth)
            && s.windowHeight == AtLeast(c, "WindowHeight", MinWindowHeight)
            && s.maxLogFileSizeBytes == MaxLogFileSizeBytes(c)
    ensures var c := General(ini);
            && (s.debugMode <==> Flag(c, "Debug")) && (s.logClearOnStart <==> Flag(c, "LogClearOnStart"))
            && s.logFile == TextOr(c, "LogFile", "session.log") && s.fontName == TextOr(c, "FontName", "Hack")
            && s.fontSize == NumberOr(ParseSetting(c, "FontSize", Unspecified), 10)
            && s.maxLogHistory == NumberOr(ParseSetting(c, "MaxLogHistory", Unspecified), 1000)
  {
    var c := General(ini);
    var ips := ScanIps(c, isIp);
    var prefixes := TargetAppPrefixes(c);
    var logFile := TextOr(c, "LogFile", "session.log");
    var fontName := TextOr(c, "FontName", "Hack");
    Settings(
      scanIps := ips,
      targetAppPrefixes := prefixes,
      automationInterval := IntervalMillis(c),
      debugMode := Flag(c, "Debug"),
      windowWidth := AtLeast(c, "WindowWidth", MinWindowWidth),
      windowHeight := AtLeast(c, "WindowHeight", MinWindowHeight),
      logClearOnStart := Flag(c, "LogClearOnStart"),
      logFile := logFile,
      fontName := fontName,
      fontSize := NumberOr(ParseSetting(c, "FontSize", Unspecified), 10),
      maxLogHistory := NumberOr(ParseSetting(c, "MaxLogHistory", Unspecified), 1000),
      maxLogFileSizeBytes := MaxLogFileSizeBytes(c))
  }

  // ---------------------------------------------------------------------------
  // Lemmas

  /** Filtering distributes over concatenation: the kept pieces keep their relative order. */
  lemma {:induction false} KeepTrimmedAppend(a: seq<string>, b: seq<string>, keep: string -> bool)
    ensures KeepTrimmed(a + b, keep) == KeepTrimmed(a, keep) + KeepTrimmed(b, keep)
  {
    if |a| == 0 {
      assert a + b == b;
    } else {
      KeepTrimmedAppend(a[1..], b, keep);
      assert (a + b)[1..] == a[1..] + b;
      assert (a + b)[0] == a[0];
      KeepTrimmedStep(a + b, keep);
      KeepTrimmedStep(a, keep);
      var h := if keep(Trim(a[0])) then [Trim(a[0])] else [];
      assert h + (KeepTrimmed(a[1..], keep) + KeepTrimmed(b, keep))
             == (h + KeepTrimmed(a[1..], keep)) + KeepTrimmed(b, keep);
    }
  }

  /** The first piece is trimmed and kept or dropped before the rest. */
  lemma KeepTrimmedStep(pieces: seq<string>, keep: string -> bool)
    requires |pieces| > 0
    ensures KeepTrimmed(pieces, keep)
            == (if keep(Trim(pieces[0])) then [Trim(pieces[0])] else []) + KeepTrimmed(pieces[1..], keep)
  {
  }

  /** Every trimmed piece that passes the filter is kept, and nothing else is. */
  lemma {:induction false} KeepTrimmedMembers(pieces: seq<string>, keep: string -> bool, x: string)
    ensures x in KeepTrimmed(pieces, keep) <==> exists k :: 0 <= k < |pieces| && Trim(pieces[k]) == x && keep(x)
  {
    if |pieces| > 0 {
      KeepTrimmedMembers(pieces[1..], keep, x);
      if x in KeepTrimmed(pieces[1..], keep) {
        var k :| 0 <= k < |pieces[1..]| && Trim(pieces[1..][k]) == x && keep(x);
        assert Trim(pieces[k + 1]) == x;
      }
      if exists k :: 0 <= k < |pieces| && Trim(pieces[k]) == x && keep(x) {
        var k :| 0 <= k < |pieces| && Trim(pieces[k]) == x && keep(x);
        if k > 0 {
          assert Trim(pieces[1..][k - 1]) == x;
        }
      }
    }
  }

  /** `KeepTrimmedMembers` for every text at once. */
  lemma KeepTrimmedMembersAll(pieces: seq<string>, keep: string -> bool)
    ensures forall x :: x in KeepTrimmed(pieces, keep) <==> keep(x) && IsPieceOf(x, pieces)
  {
    forall x
      ensures x in KeepTrimmed(pieces, keep) <==> keep(x) && IsPieceOf(x, pieces)
    {
      KeepTrimmedMembers(pieces, keep, x);
    }
  }

  /** Every position moved by `d`. */
  function Shift(idx: seq<int>, d: int): (r: seq<int>)
    ensures |r| == |idx| && forall j :: 0 <= j < |idx| ==> r[j] == idx[j] + d
  {
    seq(|idx|, j requires 0 <= j < |idx| => idx[j] + d)
  }

  /** The first of an increasing sequence of positions is the least. */
  lemma FirstIsLeast(idx: seq<int>)
    requires Increasing(idx)
    ensures forall j :: 0 <= j < |idx| ==> idx[0] <= idx[j]
  {
  }

  /** The trimmed first piece, if it passes the filter. */
  function KeepFirst(pieces: seq<string>, keep: string -> bool): seq<string>
    requires |pieces| > 0
  {
    if keep(Trim(pieces[0])) then [Trim(pieces[0])] else []
  }

  /** The positions in the whole list of a selection from its tail, with position 0 in front
      when the first piece passes. */
  function ConsPositions(pieces: seq<string>, keep: string -> bool, idx: seq<int>): (r: seq<int>)
    requires |pieces| > 0
    ensures |r| == |KeepFirst(pieces, keep)| + |idx|
  {
    if keep(Trim(pieces[0])) then [0] + Shift(idx, 1) else Shift(idx, 1)
  }

  lemma ConsPicks(rest: seq<string>, pieces: seq<string>, keep: string -> bool, idx: seq<int>)
    requires |pieces| > 0 && Picks(rest, pieces[1..], keep, idx)
    ensures Picks(KeepFirst(pieces, keep) + rest, pieces, keep, ConsPositions(pieces, keep, idx))
  {
    var h := KeepFirst(pieces, keep);
    var r := h + rest;
    var positions := ConsPositions(pieces, keep, idx);
    forall j | 0 <= j < |positions|
      ensures 0 <= positions[j] < |pieces| && r[j] == Trim(pieces[positions[j]]) && keep(r[j])
    {
      if j >= |h| {
        assert positions[j] == idx[j - |h|] + 1;
        assert r[j] == rest[j - |h|];
        assert pieces[1..][idx[j - |h|]] == pieces[positions[j]];
      }
    }
  }

  lemma ConsIncreasing(pieces: seq<string>, keep: string -> bool, idx: seq<int>)
    requires |pieces| > 0 && Increasing(idx) && forall j :: 0 <= j < |idx| ==> 0 <= idx[j]
    ensures Increasing(ConsPositions(pieces, keep, idx))
  {
  }

  lemma ConsCovers(pieces: seq<string>, keep: string -> bool, idx: seq<int>)
    requires |pieces| > 0 && Covers(pieces[1..], keep, idx)
    ensures Covers(pieces, keep, ConsPositions(pieces, keep, idx))
  {
    var positions := ConsPositions(pieces, keep, idx);
    var shifted := Shift(idx, 1);
    forall k | 0 <= k < |pieces| && keep(Trim(pieces[k]))
      ensures k in positions
    {
      if k > 0 {
        assert pieces[1..][k - 1] == pieces[k];
        var j :| 0 <= j < |idx| && idx[j] == k - 1;
        assert shifted[j] == k;
        assert k in shifted;
      }
    }
  }

  /** The filter keeps the passing pieces in list order, with their repeats. */
  lemma {:induction false} KeepTrimmedInOrder(pieces: seq<string>, keep: string -> bool)
    ensures KeptInOrder(KeepTrimmed(pieces, keep), pieces, keep)
  {
    if |pieces| == 0 {
      assert SelectionAt([], pieces, keep, []);
    } else {
      var rest := KeepTrimmed(pieces[1..], keep);
      KeepTrimmedStep(pieces, keep);
      KeepTrimmedInOrder(pieces[1..], keep);
      var idx :| SelectionAt(rest, pieces[1..], keep, idx);
      ConsPicks(rest, pieces, keep, idx);
      ConsIncreasing(pieces, keep, idx);
      ConsCovers(pieces, keep, idx);
      assert SelectionAt(KeepFirst(pieces, keep) + rest, pieces, keep, ConsPositions(pieces, keep, idx));
    }
  }

  /** A selection from a list that starts with a passing piece names position 0 first, and the
      rest of it is a selection from the tail. */
  lemma TailSelectionKept(r: seq<string>, pieces: seq<string>, keep: string -> bool, idx: seq<int>)
    requires |pieces| > 0 && keep(Trim(pieces[0])) && SelectionAt(r, pieces, keep, idx)
    ensures |r| > 0 && r[0] == Trim(pieces[0])
    ensures SelectionAt(r[1..], pieces[1..], keep, Shift(idx[1..], -1))
  {
    assert 0 in idx;
    FirstIsLeast(idx);
    var tail := Shift(idx[1..], -1);
    forall j | 0 <= j < |tail|
      ensures 0 <= tail[j] < |pieces[1..]| && r[1..][j] == Trim(pieces[1..][tail[j]]) && keep(r[1..][j])
    {
      assert idx[0] < idx[j + 1];
      assert pieces[1..][tail[j]] == pieces[idx[j + 1]];
    }
    forall k | 0 <= k < |pieces[1..]| && keep(Trim(pieces[1..][k]))
      ensures k in tail
    {
      assert pieces[1..][k] == pieces[k + 1];
      var j :| 0 <= j < |idx| && idx[j] == k + 1;
      assert tail[j - 1] == k;
    }
  }

  /** A selection from a list that starts with a failing piece never names position 0, so it is
      a selection from the tail. */
  lemma TailSelectionDropped(r: seq<string>, pieces: seq<string>, keep: string -> bool, idx: seq<int>)
    requires |pieces| > 0 && !keep(Trim(pieces[0])) && SelectionAt(r, pieces, keep, idx)
    ensures SelectionAt(r, pieces[1..], keep, Shift(idx, -1))
  {
    var tail := Shift(idx, -1);
    forall j | 0 <= j < |tail|
      ensures 0 <= tail[j] < |pieces[1..]| && r[j] == Trim(pieces[1..][tail[j]]) && keep(r[j])
    {
      assert idx[j] != 0;
      assert pieces[1..][tail[j]] == pieces[idx[j]];
    }
    forall k | 0 <= k < |pieces[1..]| && keep(Trim(pieces[1..][k]))
      ensures k in tail
    {
      assert pieces[1..][k] == pieces[k + 1];
      var j :| 0 <= j < |idx| && idx[j] == k + 1;
      assert tail[j] == k;
    }
  }

  /** Being the passing pieces in list order determines the list: the filter's result is the
      only one. */
  lemma {:induction false} SelectionDetermines(r: seq<string>, pieces: seq<string>, keep: string -> bool, idx: seq<int>)
    requires SelectionAt(r, pieces, keep, idx)
    ensures r == KeepTrimmed(pieces, keep)
    decreases |pieces|
  {
    if |pieces| > 0 {
      KeepTrimmedStep(pieces, keep);
      if keep(Trim(pieces[0])) {
        TailSelectionKept(r, pieces, keep, idx);
        SelectionDetermines(r[1..], pieces[1..], keep, Shift(idx[1..], -1));
        assert r == [r[0]] + r[1..];
      } else {
        TailSelectionDropped(r, pieces, keep, idx);
        SelectionDetermines(r, pieces[1..], keep, Shift(idx, -1));
      }
    }
  }

  /** An interval set below the floor is raised to exactly 60 seconds. */
  lemma IntervalClampedToFloor(c: map<string, string>)
    requires "AutomationIntervalSeconds" in c
    requires ParseInt(c["AutomationIntervalSeconds"], Decimal).Some?
    requires ParseInt(c["AutomationIntervalSeconds"], Decimal).value < MinIntervalSeconds
    ensures IntervalSeconds(c) == MinIntervalSeconds
  {
  }

  /** An interval written as a numeral of at least 60 seconds is taken as written. */
  lemma IntervalTakenAsWritten(c: map<string, string>, n: nat)
    requires n >= MinIntervalSeconds
    requires "AutomationIntervalSeconds" in c && c["AutomationIntervalSeconds"] == NatToString(n)
    ensures IntervalSeconds(c) == n
  {
    ParseIntOfNatToString(n, Decimal);
  }

  /** A flag is on for any letter case of "true" and for nothing else. */
  lemma FlagLetterCase(c: map<string, string>, key: string)
    ensures Flag(c, key) <==>
              && key in c && |c[key]| == 4
              && c[key][0] in "tT" && c[key][1] in "rR" && c[key][2] in "uU" && c[key][3] in "eE"
  {
    if key in c && |c[key]| == 4 {
      var v := c[key];
      var low := Lower(v);
      assert low == "true" <==> low[0] == 't' && low[1] == 'r' && low[2] == 'u' && low[3] == 'e';
      LowerCharIs(v[0], 't');
      LowerCharIs(v[1], 'r');
      LowerCharIs(v[2], 'u');
      LowerCharIs(v[3], 'e');
    }
  }

  /** Exactly a lower-case letter and its capital fold to that letter. */
  lemma LowerCharIs(x: char, lo: char)
    requires 'a' <= lo <= 'z'
    ensures LowerChar(x) == lo <==> x == lo || x == (lo as int - 'a' as int + 'A' as int) as char
  {
  }

  /** The settings every field takes when nothing is configured. */
  const Defaults: Settings := Settings(
    scanIps := [],
    targetAppPrefixes := [],
    automationInterval := 60000,
    debugMode := false,
    windowWidth := 1300,
    windowHeight := 850,
    logClearOnStart := false,
    logFile := "session.log",
    fontName := "Hack",
    fontSize := 10,
    maxLogHistory := 1000,
    maxLogFileSizeBytes := 10485760)

  /** An unreadable settings file yields the defaults in every field, with no scan targets. */
  lemma UnreadableFileGivesDefaults(isIp: string -> bool)
    ensures GetSettings(LoadSettings(None), isIp) == Defaults
  {
    var c := General(LoadSettings(None));
    assert c == map[];
    var s := GetSettings(LoadSettings(None), isIp);
    NoScanIpsSetting(c, isIp);
    NoTargetAppPrefixesSetting(c);
    assert s.scanIps == [];
    assert s.targetAppPrefixes == [];
    assert s.automationInterval == 60000;
    assert !s.debugMode;
    assert s.windowWidth == 1300;
    assert s.windowHeight == 850;
    assert !s.logClearOnStart;
    assert s.logFile == "session.log";
    assert s.fontName == "Hack";
    assert s.fontSize == 10;
    assert s.maxLogHistory == 1000;
    assert s.maxLogFileSizeBytes == 10485760;
  }

  /** Without a `TargetAppPrefixes` setting (or with an empty one) nothing is targeted. */
  lemma NoTargetAppPrefixesSetting(c: map<string, string>)
    requires !("TargetAppPrefixes" in c) || c["TargetAppPrefixes"] == ""
    ensures TargetAppPrefixes(c) == []
  {
    assert TextOr(c, "TargetAppPrefixes", "") == "";
    assert Split("", ',') == [""];
    assert KeepTrimmed([""], NonEmpty) == [] + KeepTrimmed([], NonEmpty);
  }

  /** Without a `ScanIPs` setting (or with an empty one) there is nothing to scan. */
  lemma NoScanIpsSetting(c: map<string, string>, isIp: string -> bool)
    requires !("ScanIPs" in c) || c["ScanIPs"] == ""
    ensures ScanIps(c, isIp) == []
  {
    var keep := (s: string) => NonEmpty(s) && isIp(s);
    assert TextOr(c, "ScanIPs", "") == "";
    assert Split("", ',') == [""];
    assert !keep(Trim(""));
    assert KeepTrimmed([""], keep) == [] + KeepTrimmed([], keep);
  }
}
