/** The log pipeline (`Logger` in src/logger.js).

    The logger's mutable fields become one immutable `LogState` updated by pure step functions.
    The file system is reduced to the two files the logger touches, each absent or a sequence
    of lines; every file operation that can throw has a matching flag in `Faults`, and the
    wall clock is an input (`Clock` for the message timestamp, `iso` for the file line prefix). */
module Logger {
  import opened Options
  import opened Text
  import opened Json
  import Redact
  import Config

  /** The configuration fields the logger reads. */
  datatype LogConfig = LogConfig(
    debugMode: bool,
    maxHistory: int,
    maxFileSize: int,
    logFile: string,
    clearOnStart: bool)

  /** The logger's view of the settings object it is constructed with. */
  function FromSettings(s: Config.Settings): LogConfig {
    LogConfig(s.debugMode, s.maxLogHistory, s.maxLogFileSizeBytes, s.logFile, s.logClearOnStart)
  }

  /** The log file and its backup `<LOG_FILE>.old`, each absent or a sequence of lines. */
  datatype Disk = Disk(current: Option<seq<string>>, backup: Option<seq<string>>)

  /** The logger: bounded history, the lines forwarded to the UI (when a UI dispatcher is
      installed), whether a write stream is open, and the files. */
  datatype LogState = LogState(
    history: seq<string>,
    ui: seq<string>,
    hasUi: bool,
    stream: bool,
    disk: Disk)

  /** Which file operations throw during one dispatch. */
  datatype Faults = Faults(
    statFails: bool,
    unlinkFails: bool,
    renameFails: bool,
    openFails: bool,
    reopenFails: bool)

  /** A stream that is open always writes to an existing log file. */
  predicate Consistent(st: LogState) {
    st.stream ==> st.disk.current.Some?
  }

  /** The size of a file in bytes: each line plus its newline (one byte per character). */
  function FileSize(lines: seq<string>): nat {
    if |lines| == 0 then 0 else FileSize(lines[..|lines| - 1]) + |lines[|lines| - 1]| + 1
  }

  /** A line as the stream writes it: `[<ISO time>] <text>`. */
  function Stamped(iso: string, text: string): string {
    "[" + iso + "] " + text
  }

  function RotationMarker(cfg: LogConfig): string {
    "[SYSTEM] Log file reached maximum size and was rotated. Previous logs saved to " + cfg.logFile + ".old"
  }

  const RotationFailedNotice: string :=
    "[SYSTEM] Log rotation FAILED (File busy?). Logging continues in the same file."

  /** Appending a line to the log file, creating it if needed. */
  function Append(disk: Disk, line: string): (d: Disk)
    ensures d.current == Some(disk.current.GetOr([]) + [line]) && d.backup == disk.backup
  {
    disk.(current := Some(disk.current.GetOr([]) + [line]))
  }

  // ---------------------------------------------------------------------------
  // setupFileLogger and close

  /** `setupFileLogger`: open the log file, truncating it when `LOG_CLEAR_ON_START` is set. */
  function Setup(cfg: LogConfig, hasUi: bool, disk: Disk, openFails: bool): (st: LogState)
    ensures st.history == [] && st.ui == [] && st.hasUi == hasUi
    ensures Consistent(st) && st.disk.backup == disk.backup
    ensures st.stream <==> !openFails
    ensures openFails ==> st.disk == disk
    ensures !openFails && cfg.clearOnStart ==> st.disk.current == Some([])
    ensures !openFails && !cfg.clearOnStart && disk.current.Some? ==> st.disk.current == disk.current
    ensures !openFails && !cfg.clearOnStart && disk.current.None? ==> st.disk.current == Some([])
  {
    if openFails then LogState([], [], hasUi, false, disk)
    else if cfg.clearOnStart then LogState([], [], hasUi, true, disk.(current := Some([])))
    else LogState([], [], hasUi, true, disk.(current := Some(disk.current.GetOr([]))))
  }

  /** `close()`, and equally the stream's asynchronous `'error'` handler: the stream is dropped. */
  function Close(st: LogState): (r: LogState)
    ensures !r.stream && Consistent(r)
    ensures r.history == st.history && r.ui == st.ui && r.disk == st.disk
  {
    st.(stream := false)
  }

  // ---------------------------------------------------------------------------
  // rotateLogFile

  /** The `catch` of `rotateLogFile`: the stream is closed by now, so reopen the file in append
      mode and write a failure notice; if that throws too, file logging stays off. */
  function RecoverFromFailedRotation(st: LogState, iso: string, faults: Faults): (r: LogState)
    requires !st.stream
    ensures r.history == st.history && r.ui == st.ui && r.hasUi == st.hasUi && Consistent(r)
    ensures faults.reopenFails ==> !r.stream && r.disk == st.disk
    ensures !faults.reopenFails ==> r.stream && r.disk == Append(st.disk, Stamped(iso, RotationFailedNotice))
  {
    if faults.reopenFails then st
    else st.(stream := true, disk := Append(st.disk, Stamped(iso, RotationFailedNotice)))
  }

  /** `rotateLogFile`: close the stream, delete an existing backup, rename the log file to the
      backup, open a fresh log file and write the rotation marker into it. */
  function Rotate(cfg: LogConfig, st: LogState, iso: string, faults: Faults): (r: LogState)
    requires st.disk.current.Some?
    ensures r.history == st.history && r.ui == st.ui && r.hasUi == st.hasUi && Consistent(r)
    ensures !(st.disk.backup.Some? && faults.unlinkFails) && !faults.renameFails && !faults.openFails ==>
              && r.stream
              && r.disk.backup == st.disk.current
              && r.disk.current == Some([Stamped(iso, RotationMarker(cfg))])
    ensures st.disk.backup.Some? && faults.unlinkFails && !faults.reopenFails ==>
              r.stream && r.disk == Append(st.disk, Stamped(iso, RotationFailedNotice))
    ensures faults.reopenFails && ((st.disk.backup.Some? && faults.unlinkFails) || faults.renameFails || faults.openFails)
            ==> !r.stream
    ensures st.disk.backup.Some? && faults.unlinkFails && faults.reopenFails ==> r.disk == st.disk
    ensures !(st.disk.backup.Some? && faults.unlinkFails) && faults.renameFails ==>
              && r.disk.backup == None
              && r.disk.current == (if faults.reopenFails then st.disk.current
                                    else Some(st.disk.current.value + [Stamped(iso, RotationFailedNotice)]))
              && (r.stream <==> !faults.reopenFails)
    ensures !(st.disk.backup.Some? && faults.unlinkFails) && !faults.renameFails && faults.openFails ==>
              && r.disk.backup == st.disk.current
              && r.disk.current == (if faults.reopenFails then None else Some([Stamped(iso, RotationFailedNotice)]))
              && (r.stream <==> !faults.reopenFails)
  {
    var closed := st.(stream := false);
    if st.disk.backup.Some? && faults.unlinkFails then
      RecoverFromFailedRotation(closed, iso, faults)
    else
      var unlinked := st.disk.(backup := None);
      if faults.renameFails then
        RecoverFromFailedRotation(closed.(disk := unlinked), iso, faults)
      else
        var renamed := Disk(None, st.disk.current);
        if faults.openFails then
          assert renamed.current.GetOr([]) + [Stamped(iso, RotationFailedNotice)] == [Stamped(iso, RotationFailedNotice)];
          RecoverFromFailedRotation(closed.(disk := renamed), iso, faults)
        else
          closed.(stream := true, disk := Disk(Some([Stamped(iso, RotationMarker(cfg))]), st.disk.current))
  }

  // ---------------------------------------------------------------------------
  // dispatchLog

  /** Rotation is attempted when a stream is open, the log file exists, its size can be read,
      and it has reached the configured maximum. */
  predicate RotationDue(cfg: LogConfig, st: LogState, faults: Faults) {
    st.stream && st.disk.current.Some? && !faults.statFails && FileSize(st.disk.current.value) >= cfg.maxFileSize
  }

  /** Append to the history, dropping at most the oldest entry once it exceeds the bound. */
  function Remember(history: seq<string>, message: string, maxHistory: int): (h: seq<string>)
    ensures h == history + [message] || h == (history + [message])[1..]
    ensures |h| > 0 ==> h[|h| - 1] == message
    ensures maxHistory >= 1 ==> |h| > 0
    ensures |history| <= maxHistory ==> |h| <= maxHistory
  {
    var pushed := history + [message];
    if |pushed| > maxHistory then pushed[1..] else pushed
  }

  /** `dispatchLog(message, isDebug)`. */
  function Dispatch(cfg: LogConfig, st: LogState, message: string, isDebug: bool, iso: string, faults: Faults): (r: LogState)
    ensures isDebug && !cfg.debugMode ==> r == st
    ensures !(isDebug && !cfg.debugMode) ==>
              && r.history == Remember(st.history, message, cfg.maxHistory)
              && r.ui == (if st.hasUi then st.ui + [message] else st.ui)
              && r.hasUi == st.hasUi
    ensures !st.stream ==> r.disk == st.disk && !r.stream
    ensures Consistent(st) ==> Consistent(r)
    ensures !(isDebug && !cfg.debugMode) && !RotationDue(cfg, st, faults) && st.stream ==>
              r.stream && r.disk == Append(st.disk, Stamped(iso, message))
    ensures !(isDebug && !cfg.debugMode) && RotationDue(cfg, st, faults)
            && !(st.disk.backup.Some? && faults.unlinkFails) && !faults.renameFails && !faults.openFails ==>
              && r.stream
              && r.disk.backup == st.disk.current
              && r.disk.current == Some([Stamped(iso, RotationMarker(cfg)), Stamped(iso, message)])
  {
    if isDebug && !cfg.debugMode then st
    else
      // The history and UI updates touch no part of the state the file steps read, so they
      // are applied last; without a stream there is no size check and no write.
      var checked := if RotationDue(cfg, st, faults) then Rotate(cfg, st, iso, faults) else st;
      var line := Stamped(iso, message);
      var marker := Stamped(iso, RotationMarker(cfg));
      assert checked.disk.current == Some([marker]) ==> checked.disk.current.value + [line] == [marker, line];
      WriteLine(checked, line).(history := Remember(st.history, message, cfg.maxHistory),
                                ui := if st.hasUi then st.ui + [message] else st.ui)
  }

  /** The `write` at the end of `dispatchLog`: only an open stream writes. */
  function WriteLine(st: LogState, line: string): (r: LogState)
    ensures r.history == st.history && r.ui == st.ui && r.hasUi == st.hasUi && r.stream == st.stream
    ensures st.stream ==> r.disk == Append(st.disk, line)
    ensures !st.stream ==> r.disk == st.disk
  {
    if st.stream then st.(disk := Append(st.disk, line)) else st
  }

  /** A due rotation, whether it succeeds or fails, is followed by the message line when a
      stream is open afterwards (the fresh file, or the old one reopened after the failure
      notice); when no stream could be reopened, nothing more is written. */
  lemma DispatchWhenRotationDue(cfg: LogConfig, st: LogState, message: string, isDebug: bool, iso: string, faults: Faults)
    requires !(isDebug && !cfg.debugMode) && RotationDue(cfg, st, faults)
    ensures var rotated := Rotate(cfg, st, iso, faults);
            var r := Dispatch(cfg, st, message, isDebug, iso, faults);
            && r.stream == rotated.stream
            && r.disk == (if rotated.stream then Append(rotated.disk, Stamped(iso, message)) else rotated.disk)
  {
  }

  // ---------------------------------------------------------------------------
  // log and logDebug

  /** The local time fields `log` reads from `Date`; `month` is zero-based as `getMonth()`. */
  datatype Clock = Clock(day: nat, month: nat, year: nat, hours: nat, minutes: nat)

  /** `[dd.mm.yyyy hh:mm]`, with day, month, hours and minutes padded to two digits. */
  function Timestamp(c: Clock): string {
    "[" + Pad2(NatToString(c.day)) + "." + Pad2(NatToString(c.month + 1)) + "." + NatToString(c.year)
    + " " + Pad2(NatToString(c.hours)) + ":" + Pad2(NatToString(c.minutes)) + "]"
  }

  /** `String(arg)` for a value that is not an object. */
  function Primitive(j: Json): string {
    match j
    case JNull => "null"
    case JBool(b) => if b then "true" else "false"
    case JNum(n) => IntToString(n)
    case JStr(s) => s
    case _ => ""
  }

  /** How one argument is rendered: objects are masked and then serialised, anything else
      is converted with `String`. */
  function Render(arg: Json, stringify: Json -> string): string {
    if IsObjectLike(arg) then stringify(Redact.Mask(arg)) else Primitive(arg)
  }

  function RenderAll(args: seq<Json>, stringify: Json -> string): (r: seq<string>)
    ensures |r| == |args|
    ensures forall k :: 0 <= k < |args| ==> r[k] == Render(args[k], stringify)
  {
    if |args| == 0 then [] else [Render(args[0], stringify)] + RenderAll(args[1..], stringify)
  }

  /** `timestamp[prefix] args…` with the rendered arguments joined by single spaces. */
  function FormatMessage(clock: Clock, prefix: string, args: seq<Json>, stringify: Json -> string): string {
    var rendered := RenderAll(args, stringify);
    Timestamp(clock) + "[" + prefix + "] " + (if |rendered| == 0 then "" else Join(rendered, ' '))
  }

  /** `log(prefix, ...args)`: format with compact serialisation and dispatch as a normal entry. */
  function Log(cfg: LogConfig, st: LogState, clock: Clock, prefix: string, args: seq<Json>,
               compact: Json -> string, iso: string, faults: Faults): (r: LogState)
    ensures var message := FormatMessage(clock, prefix, args, compact);
            && r.history == Remember(st.history, message, cfg.maxHistory)
            && r.ui == (if st.hasUi then st.ui + [message] else st.ui)
  {
    Dispatch(cfg, st, FormatMessage(clock, prefix, args, compact), false, iso, faults)
  }

  /** `logDebug(prefix, ...args)`: format with indented serialisation and dispatch as a debug entry. */
  function LogDebug(cfg: LogConfig, st: LogState, clock: Clock, prefix: string, args: seq<Json>,
                    pretty: Json -> string, iso: string, faults: Faults): (r: LogState)
    ensures !cfg.debugMode ==> r == st
    ensures cfg.debugMode ==> r == Log(cfg, st, clock, prefix, args, pretty, iso, faults)
  {
    Dispatch(cfg, st, FormatMessage(clock, prefix, args, pretty), true, iso, faults)
  }

  // ---------------------------------------------------------------------------
  // Lemmas

  /** An object argument reaches the message only masked: what is serialised is the masked
      value, which holds no credential at any depth. */
  lemma RenderMasks(arg: Json, stringify: Json -> string)
    requires IsObjectLike(arg)
    ensures exists m :: Render(arg, stringify) == stringify(m) && Redact.MaskedFrom(arg, m) && Redact.Clean(m)
  {
    var m := Redact.Mask(arg);
    Redact.MaskMeetsSpec(arg);
    Redact.MaskIsClean(arg);
    assert Render(arg, stringify) == stringify(m);
  }

  lemma YearHasFourDigits(year: nat)
    requires 1000 <= year <= 9999
    ensures |NatToString(year)| == 4
  {
    assert |NatToString(year / 1000)| == 1;
    assert |NatToString(year / 100)| == 2;
    assert |NatToString(year / 10)| == 3;
  }

  /** Where each field sits in a timestamp whose fields have the widths 2, 2, 4, 2 and 2. */
  lemma TimestampFields(d: string, m: string, y: string, h: string, n: string)
    requires |d| == 2 && |m| == 2 && |y| == 4 && |h| == 2 && |n| == 2
    ensures var t := "[" + d + "." + m + "." + y + " " + h + ":" + n + "]";
            && |t| == 18
            && t[0] == '[' && t[3] == '.' && t[6] == '.' && t[11] == ' ' && t[14] == ':' && t[17] == ']'
            && t[1..3] == d && t[4..6] == m && t[7..11] == y && t[12..14] == h && t[15..17] == n
  {
  }

  /** For any clock reading `Date` can produce with a four-digit year, the timestamp has a fixed
      layout and every field reads back as the value it came from. */
  lemma TimestampLayout(c: Clock)
    requires 1 <= c.day <= 31 && c.month <= 11 && 1000 <= c.year <= 9999
    requires c.hours <= 23 && c.minutes <= 59
    ensures var t := Timestamp(c);
            && |t| == 18
            && t[0] == '[' && t[3] == '.' && t[6] == '.' && t[11] == ' ' && t[14] == ':' && t[17] == ']'
            && NumeralValue(t[1..3], 10) == c.day
            && NumeralValue(t[4..6], 10) == c.month + 1
            && NumeralValue(t[7..11], 10) == c.year
            && NumeralValue(t[12..14], 10) == c.hours
            && NumeralValue(t[15..17], 10) == c.minutes
  {
    Pad2TwoDigits(c.day);
    Pad2TwoDigits(c.month + 1);
    Pad2TwoDigits(c.hours);
    Pad2TwoDigits(c.minutes);
    YearHasFourDigits(c.year);
    NumeralOfNatToString(c.year);
    TimestampFields(Pad2(NatToString(c.day)), Pad2(NatToString(c.month + 1)), NatToString(c.year),
                    Pad2(NatToString(c.hours)), Pad2(NatToString(c.minutes)));
  }

  /** Dispatching a sequence of normal (non-debug) messages in order; message `k` is written at
      time `isos[k]` and meets the file faults `faults[k]`. */
  function DispatchAll(cfg: LogConfig, st: LogState, msgs: seq<string>, isos: seq<string>, faults: seq<Faults>): LogState
    requires |isos| == |msgs| && |faults| == |msgs|
    decreases |msgs|
  {
    if |msgs| == 0 then st
    else DispatchAll(cfg, Dispatch(cfg, st, msgs[0], false, isos[0], faults[0]), msgs[1..], isos[1..], faults[1..])
  }

  /** A run of messages is its first message followed by the rest of the run. */
  lemma DispatchAllStep(cfg: LogConfig, st: LogState, msgs: seq<string>, isos: seq<string>, faults: seq<Faults>)
    requires |isos| == |msgs| && |faults| == |msgs| && |msgs| > 0
    ensures DispatchAll(cfg, st, msgs, isos, faults)
            == DispatchAll(cfg, Dispatch(cfg, st, msgs[0], false, isos[0], faults[0]), msgs[1..], isos[1..], faults[1..])
  {
  }

  /** The last `n` entries of `s` (all of them when there are fewer). */
  function Newest(s: seq<string>, n: nat): (r: seq<string>)
    ensures |r| <= n && |r| <= |s|
    ensures r == s[|s| - |r|..]
  {
    if |s| <= n then s else s[|s| - n..]
  }

  lemma NewestOfSuffix(x: seq<string>, y: seq<string>, p: seq<string>, n: nat)
    requires y == p + x && |x| >= n
    ensures Newest(x, n) == Newest(y, n)
  {
    assert x == y[|p|..];
  }

  lemma NewestOfNewest(a: seq<string>, b: seq<string>, n: nat)
    ensures Newest(Newest(a, n) + b, n) == Newest(a + b, n)
  {
    if |a| > n {
      var p := a[..|a| - n];
      assert a + b == p + (Newest(a, n) + b);
      NewestOfSuffix(Newest(a, n) + b, a + b, p, n);
    }
  }

  /** One step of the history: remembering a message keeps the newest entries. */
  lemma RememberKeepsNewest(history: seq<string>, message: string, maxHistory: int)
    requires maxHistory >= 0 && |history| <= maxHistory
    ensures Remember(history, message, maxHistory) == Newest(history + [message], maxHistory)
  {
  }

  /** Remembering the first message and then keeping the newest of the rest keeps the newest
      of the whole run. */
  lemma RememberThenNewest(history: seq<string>, msgs: seq<string>, maxHistory: int)
    requires maxHistory >= 0 && |history| <= maxHistory && |msgs| > 0
    ensures Newest(Remember(history, msgs[0], maxHistory) + msgs[1..], maxHistory) == Newest(history + msgs, maxHistory)
  {
    var pushed := history + [msgs[0]];
    RememberKeepsNewest(history, msgs[0], maxHistory);
    NewestOfNewest(pushed, msgs[1..], maxHistory);
    assert pushed + msgs[1..] == history + msgs;
  }

  /** Round trip of the history: after any run of messages the history holds the newest
      `MAX_LOG_HISTORY` of everything logged, oldest first. */
  lemma {:induction false} HistoryKeepsNewest(cfg: LogConfig, st: LogState, msgs: seq<string>, isos: seq<string>, faults: seq<Faults>)
    requires |isos| == |msgs| && |faults| == |msgs|
    requires cfg.maxHistory >= 0 && |st.history| <= cfg.maxHistory
    ensures DispatchAll(cfg, st, msgs, isos, faults).history == Newest(st.history + msgs, cfg.maxHistory)
    decreases |msgs|
  {
    if |msgs| == 0 {
      assert st.history + msgs == st.history;
    } else {
      var st1 := Dispatch(cfg, st, msgs[0], false, isos[0], faults[0]);
      DispatchAllStep(cfg, st, msgs, isos, faults);
      HistoryKeepsNewest(cfg, st1, msgs[1..], isos[1..], faults[1..]);
      RememberThenNewest(st.history, msgs, cfg.maxHistory);
    }
  }

  lemma ConcatFirstAndRest(s: seq<string>, msgs: seq<string>)
    requires |msgs| > 0
    ensures s + [msgs[0]] + msgs[1..] == s + msgs
  {
  }

  /** Every message of a run reaches the UI, in order, when a UI dispatcher is installed. */
  lemma {:induction false} UiReceivesAll(cfg: LogConfig, st: LogState, msgs: seq<string>, isos: seq<string>, faults: seq<Faults>)
    requires |isos| == |msgs| && |faults| == |msgs|
    ensures DispatchAll(cfg, st, msgs, isos, faults).hasUi == st.hasUi
    ensures DispatchAll(cfg, st, msgs, isos, faults).ui == if st.hasUi then st.ui + msgs else st.ui
    decreases |msgs|
  {
    if |msgs| == 0 {
      assert st.ui + msgs == st.ui;
    } else {
      var st1 := Dispatch(cfg, st, msgs[0], false, isos[0], faults[0]);
      DispatchAllStep(cfg, st, msgs, isos, faults);
      UiReceivesAll(cfg, st1, msgs[1..], isos[1..], faults[1..]);
      ConcatFirstAndRest(st.ui, msgs);
    }
  }

  /** The lines a run of messages writes, in order. */
  function StampAll(isos: seq<string>, msgs: seq<string>): (lines: seq<string>)
    requires |isos| == |msgs|
    ensures |lines| == |msgs|
    ensures forall k :: 0 <= k < |msgs| ==> lines[k] == Stamped(isos[k], msgs[k])
  {
    if |msgs| == 0 then [] else [Stamped(isos[0], msgs[0])] + StampAll(isos[1..], msgs[1..])
  }

  /** The size of a file is the sum of the sizes of its parts. */
  lemma {:induction false} FileSizeAppend(a: seq<string>, b: seq<string>)
    ensures FileSize(a + b) == FileSize(a) + FileSize(b)
    decreases |b|
  {
    if |b| == 0 {
      assert a + b == a;
    } else {
      var b' := b[..|b| - 1];
      FileSizeAppend(a, b');
      assert (a + b)[..|a + b| - 1] == a + b';
      assert (a + b)[|a + b| - 1] == b[|b| - 1];
    }
  }

  /** Round trip of the file: while the log file stays below the threshold, every message is
      appended to it, in order, and the backup is untouched. */
  lemma {:induction false} FileMirrorsMessages(cfg: LogConfig, st: LogState, msgs: seq<string>, isos: seq<string>, faults: seq<Faults>)
    requires |isos| == |msgs| && |faults| == |msgs|
    requires st.stream && st.disk.current.Some?
    requires FileSize(st.disk.current.value + StampAll(isos, msgs)) < cfg.maxFileSize
    ensures DispatchAll(cfg, st, msgs, isos, faults).stream
    ensures DispatchAll(cfg, st, msgs, isos, faults).disk
            == Disk(Some(st.disk.current.value + StampAll(isos, msgs)), st.disk.backup)
    decreases |msgs|
  {
    var cur := st.disk.current.value;
    if |msgs| == 0 {
      assert cur + StampAll(isos, msgs) == cur;
    } else {
      var line := Stamped(isos[0], msgs[0]);
      var rest := StampAll(isos[1..], msgs[1..]);
      assert StampAll(isos, msgs) == [line] + rest;
      assert cur + [line] + rest == cur + StampAll(isos, msgs);
      FileSizeAppend(cur, StampAll(isos, msgs));
      AppendWhenBelowThreshold(cfg, st, msgs[0], isos[0], faults[0]);
      FileMirrorsMessages(cfg, Dispatch(cfg, st, msgs[0], false, isos[0], faults[0]), msgs[1..], isos[1..], faults[1..]);
    }
  }

  /** One step of the file: below the threshold, a message is appended as one stamped line. */
  lemma AppendWhenBelowThreshold(cfg: LogConfig, st: LogState, message: string, iso: string, faults: Faults)
    requires st.stream && st.disk.current.Some? && FileSize(st.disk.current.value) < cfg.maxFileSize
    ensures Dispatch(cfg, st, message, false, iso, faults).stream
    ensures Dispatch(cfg, st, message, false, iso, faults).disk
            == Disk(Some(st.disk.current.value + [Stamped(iso, message)]), st.disk.backup)
  {
    assert !RotationDue(cfg, st, faults);
  }

  /** Once the stream is gone, no run of messages touches the files again. */
  lemma {:induction false} NoStreamNoFileWrites(cfg: LogConfig, st: LogState, msgs: seq<string>, isos: seq<string>, faults: seq<Faults>)
    requires |isos| == |msgs| && |faults| == |msgs|
    requires !st.stream
    ensures !DispatchAll(cfg, st, msgs, isos, faults).stream
    ensures DispatchAll(cfg, st, msgs, isos, faults).disk == st.disk
    decreases |msgs|
  {
    if |msgs| > 0 {
      NoStreamNoFileWrites(cfg, Dispatch(cfg, st, msgs[0], false, isos[0], faults[0]), msgs[1..], isos[1..], faults[1..]);
    }
  }

  /** A successful rotation is not repeated by the next message unless the fresh file,
      holding only the marker and one message, already reaches the threshold. */
  lemma RotationNotRepeated(cfg: LogConfig, st: LogState, message: string, iso: string, faults: Faults, next: Faults)
    requires RotationDue(cfg, st, faults)
    requires !(st.disk.backup.Some? && faults.unlinkFails) && !faults.renameFails && !faults.openFails
    requires FileSize([Stamped(iso, RotationMarker(cfg)), Stamped(iso, message)]) < cfg.maxFileSize
    ensures !RotationDue(cfg, Dispatch(cfg, st, message, false, iso, faults), next)
  {
  }

  /** Without a readable settings file the logger keeps the newest 1000 messages, rotates
      `session.log` at 10 MiB, appends to it on start and drops debug messages. */
  lemma DefaultLogger(isIp: string -> bool)
    ensures FromSettings(Config.GetSettings(Config.LoadSettings(None), isIp))
            == LogConfig(false, 1000, 10 * Config.MegaByte, "session.log", false)
  {
    Config.UnreadableFileGivesDefaults(isIp);
  }

  /** A history cap of zero or less, which `parseInt` lets through, keeps the history empty:
      every message is pushed and shifted out again at once. */
  lemma {:induction false} NonPositiveCapKeepsNoHistory(cfg: LogConfig, st: LogState, msgs: seq<string>,
                                                         isos: seq<string>, faults: seq<Faults>)
    requires |isos| == |msgs| && |faults| == |msgs|
    requires cfg.maxHistory <= 0 && st.history == []
    ensures DispatchAll(cfg, st, msgs, isos, faults).history == []
    decreases |msgs|
  {
    if |msgs| > 0 {
      var st1 := Dispatch(cfg, st, msgs[0], false, isos[0], faults[0]);
      assert st1.history == ([] + [msgs[0]])[1..] == [];
      DispatchAllStep(cfg, st, msgs, isos, faults);
      NonPositiveCapKeepsNoHistory(cfg, st1, msgs[1..], isos[1..], faults[1..]);
    }
  }
}
