# flux-auto-deleter, modelled in Dafny

flux-auto-deleter is an Electron desktop tool that watches Flux nodes. It notices when the
operator logs in to a node's web UI, and while the session is valid it repeatedly lists the
node's running applications. It removes every application whose container name contains a
target prefix (`StuckContainer`).

This project models the decision-making core of the tool as pure Dafny functions and proves
properties about it:

- **Redaction** (`Redact`, src/utils.js `maskSensitiveData`). Before an object is logged,
  every member whose lower-cased key contains one of six credential keywords is replaced by
  `[REDACTED]`, at any depth.
- **Node API client** (`FluxApi`, src/flux-api.js). These functions classify what the node
  answered:
  - `checkFluxNodeExistence`;
  - `listRunningApps`;
  - `removeApp`, including its error object and its `authError` flag.
- **Discovery** (`Discovery`, src/discovery.js). Eight port slots are probed per IP. Every
  answering slot becomes a node with a two-digit, one-based id.
- **Settings** (`Config`, src/config.js). This covers `loadSettings` with its fallback, and
  `getSettings` with its defaults, clamps and list parsing.
- **Logger** (`Logger`, src/logger.js). It covers:
  - the bounded history and the UI forward;
  - the log file with size-triggered rotation to `<file>.old`, and every failure path of the
    rotation;
  - the `log` and `logDebug` message format;
  - `close`.
- **Login watcher** (`AuthMonitor`, monitor-preload.js `checkAuthState`). This is the page
  script that reports login and logout to the main process.
- **Automation controller** (`Automation`, monitor-main.js). It covers:
  - `isTokenValid`, the heartbeat check;
  - `runAutomationCycle`, including how each list entry is classified and how the main
    application name is derived;
  - the `auth-state-changed` handler, with its recurring timer.
- **Both processes together** (`Session`). This shows that the controller's credential and its
  timer stay coherent with what the watcher announced.

Shared helpers are `Options` (an `Option` type), `Text` and `Json`:

- `Text` holds the JavaScript string operations the source uses: `toLowerCase`, `includes`,
  `indexOf`, `trim`, `split`, `padStart`, `String(n)`, and `parseInt` with radix 10 or with no
  radix.
- `Json` holds the JSON value type. It also provides member lookup, where the last duplicate
  key wins as in `JSON.parse`, and JavaScript truthiness.

The model has no I/O. Each network request's outcome is an input (`FluxApi.FetchOutcome`): an
exception, or a status with the body text and its parse. The same goes for the following:

- the parsed `settings.ini`;
- the clock;
- the results of the logger's file operations (`Logger.Faults`);
- the value in the page's storage.

`JSON.stringify` and `net.isIP` are parameters.

Some facts about the code that shape the model:

- `removeApp` parses the whole 2xx body once with `JSON.parse`.
- The main application name is the container name from the **first** occurrence of the
  prefix on (monitor-main.js:101).
- On login the first cycle runs at once, before the timer is armed.
- A single global controller, with one credential and one timer, serves the single node at
  `API_BASE_URL` (`Automation.ApiBaseUrl`, monitor-main.js:8). The discovered nodes never reach it.

## Model

| member | source | states |
|---|---|---|
| Text.Lower | src/utils.js:56 | lower-casing keeps the length and maps every letter to lower case, leaving other characters alone |
| Text.LowerIdempotent | src/utils.js:56-57 | lower-casing an already lower-cased key changes nothing |
| Text.IndexOf | monitor-main.js:101 | `indexOf` returns a position where the text occurs with no earlier occurrence, and returns nothing exactly when it occurs nowhere |
| Text.ContainsIff | monitor-main.js:100 | `includes` holds exactly when the text occurs at some position |
| Text.TrimIsCore | src/config.js:28 | `trim` returns a contiguous piece of its input with no leading or trailing white space, and everything cut off is white space |
| Text.JoinSplit | src/config.js:26-27 | splitting on a separator and joining the pieces back gives the original text |
| Text.SplitJoin | src/config.js:36 | splitting a join of separator-free pieces gives back exactly those pieces |
| Text.NatToString | src/discovery.js:26 | `String(n)` is a non-empty digit string without a leading zero, and it has one digit exactly when n < 10 |
| Text.NumeralOfNatToString | src/discovery.js:26 | the decimal numeral of n reads back as n |
| Text.NatToStringInjective | src/discovery.js:25-28 | different numbers have different numerals |
| Text.DigitPrefix | src/config.js:39 | `parseInt` reads the longest run of digits at the front of the text |
| Text.ParseIntOfNatToString | src/config.js:39 | `parseInt` of a decimal numeral gives the number back, with or without radix 10 |
| Text.Pad2 | src/discovery.js:26 | `padStart(2,'0')` keeps the text as its suffix and fills only with zeros, up to length 2 |
| Text.Pad2TwoDigits | src/logger.js:107-111 | a padded number below 100 is exactly two digits and reads back as the number |
| Json.Lookup | src/flux-api.js:43 | member access finds nothing exactly when no field has the key, and otherwise finds the value of the last field with that key |
| Redact.Mask | src/utils.js:35-39 | a non-object is returned unchanged, and an array or object keeps its length or its keys in order |
| Redact.MaskMeetsSpec | src/utils.js:46-65 | the masked value has the input's shape, every sensitive member at any depth holds the marker, and everything else is kept |
| Redact.SpecDeterminesMask | src/utils.js:46-65 | any value related to the input in that way is the masked value |
| Redact.MaskCharacterised | src/utils.js:35-69 | a value is the masked input if and only if it meets the relational description |
| Redact.MaskIsClean | src/utils.js:43-58 | no credential survives masking: every sensitive member at any depth holds the marker |
| Redact.CleanIffFixedPoint | src/utils.js:35-69 | masking leaves a value unchanged exactly when it already holds no credential |
| Redact.MaskIdempotent | src/utils.js:35-69 | masking twice is masking once |
| FluxApi.NodeExistsIgnoresResponse | src/flux-api.js:10-23 | a node exists whenever the request completed, whatever its status, and is absent whenever it threw |
| FluxApi.ListRunningApps | src/flux-api.js:31-54 | the result is the app array of an accepted reply (2xx, status "success", data an array), and `[]` when no array is accepted |
| FluxApi.AcceptedListingReturned | src/flux-api.js:43-45 | an accepted reply's array is always returned |
| FluxApi.RemoveRequest | src/flux-api.js:64-77 | a request is sent exactly when a token is held; it carries the token and the URL `<api>/apps/appremove?appname=<name>` |
| FluxApi.RemoveApp | src/flux-api.js:63-113 | a missing token, an exception, an HTTP error and an error payload each give their own failure, and success carries the body text; an HTTP error reads `HTTP error! Status: <status>` |
| FluxApi.AuthErrorIff | src/flux-api.js:64-99 | the auth flag is true exactly for a missing token, HTTP 401/403, or an error payload with code 401/403 or an "unauthorized" message |
| FluxApi.RemovedIff | src/flux-api.js:79-107 | removal succeeds exactly for a held token, a 2xx status and a body that is not an error payload, including a non-JSON body |
| FluxApi.AuthFlagUnsetIff | src/flux-api.js:109-112 | the auth flag is left unset exactly when the request threw |
| FluxApi.ErrorPayloadMessage | src/flux-api.js:92-94 | an error payload's message is `data.message`, or the serialised `data` when that is falsy |
| Discovery.SlotNode | src/discovery.js:27-35 | a discovered node starts logged out with no automation armed |
| Discovery.SlotLayout | src/discovery.js:17-31 | slot i is reached on UI port 16126+10i and API port 16127+10i, and its id and name carry a two-digit number that reads back as i+1 |
| Discovery.UrlNamesPort | src/discovery.js:19-30 | two addresses on one IP are equal exactly when their ports are |
| Discovery.UrlsDistinct | src/discovery.js:13-45 | the nodes found on one IP have pairwise different UI addresses and API addresses, and no API address is any node's UI address |
| Discovery.SlotIdDistinct | src/discovery.js:25-28 | two different slots get different ids |
| Discovery.DiscoverNodesOnIp | src/discovery.js:10-46 | the result lists the nodes of the answering slots in slot order, has at most eight nodes, and holds no duplicate id |
| Discovery.IdsDistinct | src/discovery.js:44-45 | no two nodes found on one IP share an id |
| Discovery.FoundSlotsIsFilter | src/discovery.js:44-45 | the kept slots are exactly the answering ones, in increasing order |
| Discovery.SlotCount | src/discovery.js:14-16 | no more slots are found than probed |
| Discovery.NoneFoundWhenAllFail | src/discovery.js:23-39 | when every probe throws, nothing is found |
| Discovery.FirstAndFourthFound | src/discovery.js:44-45 | with slots 1 and 4 answering, exactly those are kept, in order |
| Discovery.FirstAndFourthIds | src/discovery.js:25-28 | slots 1 and 4 are named `node01` and `node04` |
| Config.LoadSettings | src/config.js:12-19 | an unreadable or unparsable file yields `{General: {}}`, and a readable one is used as parsed |
| Config.ScanIps | src/config.js:26-33 | a text is a scan target exactly when it is non-empty, passes the IP-address test, and some comma-separated piece of `ScanIPs` trims to it; the targets are those trimmed pieces in list order, each as often as it occurs |
| Config.NoScanIpsSetting | src/config.js:26 | a missing or empty `ScanIPs` setting gives no scan targets |
| Config.TargetAppPrefixes | src/config.js:36 | a text is a target prefix exactly when it is non-empty and some comma-separated piece of `TargetAppPrefixes` trims to it; the prefixes are those trimmed pieces in list order, each as often as it occurs |
| Config.NoTargetAppPrefixesSetting | src/config.js:36 | a missing or empty `TargetAppPrefixes` setting gives no prefixes |
| Config.IntervalSeconds | src/config.js:39-43 | a setting that parses to 60 or more is used as parsed; a missing, unparsable, zero or smaller one gives 60 |
| Config.IntervalMillis | src/config.js:39-48 | the automation interval is a whole number of seconds, at least one minute, and reads back as the interval in seconds |
| Config.AtLeast | src/config.js:50-51 | a window dimension that parses to a non-zero value at or above its floor is used as parsed; otherwise it is the floor |
| Config.MaxLogFileSizeBytes | src/config.js:57 | the rotation threshold is the parsed number of MiB in bytes, or 10 MiB when the setting is missing, unparsable or zero |
| Config.GetSettings | src/config.js:22-59 | every field is taken from its setting through the rule for that field; the floors and defaults hold: interval ≥ 60000 ms in whole seconds, window ≥ 1300×850, non-empty log file and font names, only valid IPs |
| Config.KeepTrimmedAppend | src/config.js:26-36 | filtering the trimmed pieces keeps their order: the kept pieces of a concatenation are the kept pieces of each part |
| Config.KeepTrimmedMembers | src/config.js:26-36 | a text is kept exactly when some piece trims to it and it passes the filter |
| Config.KeepTrimmedMembersAll | src/config.js:26-36 | the same, for every text at once |
| Config.KeepTrimmedInOrder | src/config.js:26-36 | the filter's result is the trimmed passing pieces at an increasing run of positions that names every passing position |
| Config.SelectionDetermines | src/config.js:26-36 | any list that is the trimmed passing pieces at such a run of positions is the filter's result, so that description fixes order and repeats |
| Config.IntervalClampedToFloor | src/config.js:40-43 | an interval set below 60 becomes exactly 60 |
| Config.IntervalTakenAsWritten | src/config.js:39 | an interval written as a numeral of at least 60 is taken as written |
| Config.FlagLetterCase | src/config.js:49-52 | a flag is on exactly when its value is the four letters of "true", each in either case |
| Config.LowerCharIs | src/config.js:49 | exactly a lower-case letter and its capital lower-case to that letter |
| Config.UnreadableFileGivesDefaults | src/config.js:12-59 | with no readable settings file every field takes its default, with no scan targets |
| Logger.Setup | src/logger.js:16-28 | a new logger has empty history; the stream is open unless opening fails; the file is truncated when clear-on-start is set, kept otherwise, and created empty when it did not exist |
| Logger.Close | src/logger.js:131-136 | closing drops the stream and changes nothing else |
| Logger.RecoverFromFailedRotation | src/logger.js:91-102 | after a failed rotation the file is reopened for appending with a failure notice, or file logging stays off if that fails too |
| Logger.Rotate | src/logger.js:67-103 | a rotation succeeds whenever the rename and the open succeed and the old backup, if there is one, can be deleted; with no old backup there is nothing to delete, so the unlink cannot fail. A successful rotation moves the log to the backup, replacing any old backup, and starts a fresh file holding only the marker. If the old backup cannot be deleted, both files stay and the notice is appended. If the rename fails, the old backup is already gone and the notice is appended to the log. If the fresh file cannot be opened, the log is the backup and the notice starts a new log. A failed reopen leaves file logging off |
| Logger.Remember | src/logger.js:35-39 | the history gains the message as its newest entry and drops at most the oldest one, staying within its bound |
| Logger.Dispatch | src/logger.js:30-65 | a debug message is ignored unless debug mode is on; otherwise it is remembered and forwarded; it is appended to the file unless a rotation is due, in which case, once the rotation succeeds, it follows the rotation marker in the fresh file; an absent old backup never blocks the rotation |
| Logger.DispatchWhenRotationDue | src/logger.js:50-63 | whenever a rotation is due, successful or not, the message line follows whatever the rotation left on disk if a stream is open afterwards, and nothing more is written if none is |
| Logger.Log | src/logger.js:105-116 | `log` always records the formatted message in history and forwards it to the UI |
| Logger.LogDebug | src/logger.js:118-129 | `logDebug` does nothing when debug mode is off, and logs like `log` otherwise |
| Logger.RenderMasks | src/logger.js:114 | an object argument reaches the message only as the serialisation of its masked, credential-free form |
| Logger.TimestampLayout | src/logger.js:106-112 | the timestamp is `[dd.mm.yyyy hh:mm]`, 18 characters long, and every field reads back as its value |
| Logger.HistoryKeepsNewest | src/logger.js:35-39 | after any run of messages the history holds exactly the newest ones within the bound, in order |
| Logger.NonPositiveCapKeepsNoHistory | src/logger.js:35-39 | with a history bound of zero or below, each message is pushed and shifted out at once, so the history stays empty |
| Logger.UiReceivesAll | src/logger.js:41-44 | after any run of messages the UI has received every one of them, in order |
| Logger.NewestOfNewest | src/logger.js:35-39 | trimming the history early and trimming once at the end give the same result |
| Logger.FileMirrorsMessages | src/logger.js:47-63 | below the threshold, every message is appended to the file in order with its own time stamp, and the backup is untouched |
| Logger.AppendWhenBelowThreshold | src/logger.js:51-63 | below the threshold, a message adds exactly one stamped line |
| Logger.NoStreamNoFileWrites | src/logger.js:47 | once the stream is gone, no message touches the files |
| Logger.DefaultLogger | src/config.js:52-57 | without a settings file the logger keeps 1000 messages, rotates `session.log` at 10 MiB, appends on start and drops debug messages |
| Logger.RotationNotRepeated | src/logger.js:51-55 | after a successful rotation the next message does not rotate again, unless two lines already reach the threshold |
| AuthMonitor.CheckAuthState | monitor-preload.js:58-77 | after a check the watcher remembers the view of the stored value, sends a message exactly when that view changed, and the message carries it |
| AuthMonitor.ObserveAnnounces | monitor-preload.js:56-77 | over any run of checks, the watcher's memory is what it last announced and tracks the latest reading; every message changes what the receiver believes (no duplicate login, no logout without a login) |
| AuthMonitor.SteadyCredentialSilent | monitor-preload.js:62-76 | an unchanged stored credential sends nothing |
| Automation.HeartbeatRequest | monitor-main.js:26-34 | the heartbeat is sent exactly when a credential is held, carries it, and goes to `<API_BASE_URL>/id/loggedsessions` |
| Automation.IsTokenValid | monitor-main.js:26-41 | a valid verdict means a request was sent and answered 2xx |
| Automation.TokenInvalidIff | monitor-main.js:26-41 | the heartbeat fails exactly for a missing credential, an exception or a non-2xx status |
| Automation.FetchAppList | monitor-main.js:43-59 | the list is available exactly when a credential is held and the request completed with a JSON body, whatever its status, and it is that body |
| Automation.MainAppName | monitor-main.js:96-101 | a main application name is found exactly when the name without its leading "/" contains the prefix |
| Automation.MainAppNameShape | monitor-main.js:96-101 | the name found starts with the prefix and ends the container name, from the prefix's first occurrence |
| Automation.ComponentNameYieldsMainApp | monitor-main.js:96-103 | `/<component>StuckContainer<rest>`, with no "S" in the component part, yields `StuckContainer<rest>` |
| Automation.ClassifyApp | monitor-main.js:94-106 | an entry without `Names` or with an empty `Names` array is skipped; a `Names` array whose first element is not a string ends the loop with a `TypeError`; only `null` and objects can end it |
| Automation.ClassifyAbortsIff | monitor-main.js:94-97 | an entry ends the loop with a `TypeError` exactly when it is `null` or its `Names` is a non-empty array whose first element is not a string |
| Automation.ClassifyRemovesIff | monitor-main.js:94-103 | an entry yields a removal exactly when it is an object whose `Names` is a non-empty array with a string first name holding the target prefix, and the name removed is that name's main application name; non-objects, and objects whose `Names` is missing, `null`, a string or any other non-array, never yield one |
| Automation.OnlyFirstNameCounts | monitor-main.js:95-96 | only the first of several names is examined |
| Automation.StringNamesNeverRemoved | monitor-main.js:95-100 | a `Names` that is a plain string is indexed as a string and never matches |
| Automation.StopTimer | monitor-main.js:85-86 | stopping leaves no timer live and keeps the credential |
| Automation.StartTimer | monitor-main.js:125 | starting arms exactly one fresh timer |
| Automation.HandleAuth | monitor-main.js:117-137 | a login stores the credential and starts a cycle and a timer only if none is armed; a logout clears both; the single-timer invariant is kept |
| Automation.RemovalRequests | monitor-main.js:61-70 | each removal request is the client's request for that name with the held credential |
| Automation.RunCycle | monitor-main.js:79-110 | a failed heartbeat clears the credential and the timer and removes nothing. After a valid heartbeat and an accepted array the cycle sends one removal per target of the scan, in order, and stops with a `TypeError` exactly when the scan does. Any other `data` removes nothing. The "could not retrieve" notice appears exactly when the list is unusable |
| Automation.RemovalRequestNamesApp | monitor-main.js:67 | two removal requests with the same credential are equal exactly when they name the same application |
| Automation.RemovalRequestsFor | monitor-main.js:100-103 | the removal for a name is among the requests exactly when the name is among the targets |
| Automation.CycleRemovesExactlyReached | monitor-main.js:92-106 | a valid cycle asks to remove an application exactly when an entry reached before any `TypeError` yields it |
| Automation.AtMostOneLoop | monitor-main.js:117-137 | whatever messages and cycles arrive, at most one recurring timer is ever live |
| Automation.RepeatedLoginKeepsLoop | monitor-main.js:121-126 | a second login only replaces the credential and arms nothing |
| Automation.LoggedOutCycleSendsNothing | monitor-main.js:79-89 | a cycle without a credential sends no request and leaves no timer |
| Automation.ScanAppend | monitor-main.js:94-106 | the loop visits the list in order and does not stop after a removal; an abort stops it |
| Automation.ScanAbortsIff | monitor-main.js:94-106 | the loop aborts exactly when some entry raises a `TypeError` |
| Automation.ScanTargetsIff | monitor-main.js:94-106 | a name is removed exactly when an entry reached before any abort yields it |
| Session.StepCoherent | monitor-main.js:117-137 | each poll or cycle keeps the controller coherent with the watcher |
| Session.RunCoherent | monitor-preload.js:58-77 | from start-up on, the timer runs exactly while a credential is held, that credential is the one last announced, and at most one timer is live |
| Session.PollHandsOverCredential | monitor-preload.js:62-75 | while in step, a poll hands the stored credential to the controller: a truthy one arms the loop, and an empty or missing one stops it |
| Session.PausedUntilCredentialChanges | monitor-main.js:81-88 | a failed heartbeat pauses automation, and it stays paused while the same credential remains stored |

## Left out

- I/O is not modelled: the network, the file system, timers, `console` output, Electron windows
  and IPC. Their outcomes are inputs and their effects are outputs, as described above.
  In src/flux-api.js, `fetchWithTimeout` and its 10-second abort (src/utils.js) are part of the
  fetch outcome.
- `checkInternetConnection` (src/utils.js) is not modelled, because it is a DNS lookup with no
  logic of its own.
- `logState`, `createWindow` and the Electron lifecycle hooks (monitor-preload.js,
  monitor-main.js) only print or create windows.
- shell-renderer.js and sync-version.js are not part of this model.
- The logging done by `checkFluxNodeExistence`, `listRunningApps`, `removeApp` and
  `discoverNodesOnIp` is not modelled. Each of these functions' results is modelled; the
  log lines they emit are not.
- Token decryption with `safeStorage` is not modelled. A decryption error is an exception, so it
  is the `Threw` outcome.
- `Discovery.DiscoverNodesOnIp`: the node's `view` field (always `null`) is not modelled.
- `Text.Lower`: only ASCII letters are lower-cased. Non-ASCII case mappings of `toLowerCase` are
  not modelled.
- `Text.TrimIsCore`: white space is the ASCII white space, no-break space and byte-order mark. The
  other Unicode space separators that `trim` also removes are not modelled.
- `Text.ParseIntOfNatToString`: `parseInt` is modelled on whole numbers only. With no radix a
  `0x` prefix reads hexadecimal. `Infinity`, exponent forms and values beyond 2^53 are not
  modelled.
- `Json.Lookup`: numbers are integers. Fractions and `NaN` in replies are not modelled.
- `Config.GetSettings`: `ini.parse` turns the bare words `true`, `false` and `null` into
  non-strings and nests dotted keys. The model takes every value as text.
- `Logger.Dispatch`: file sizes count one byte per character (not UTF-8 bytes) and assume every
  earlier write has reached the disk. The asynchronous `'error'` event of the stream opened at
  start-up, the only one with an `'error'` listener, is modelled as `Logger.Close`, at the point
  where it is delivered.
- `Logger.Rotate`: `openFails` and `reopenFails` stand only for synchronous throws. The streams
  opened during rotation (logger.js:86 and :95) have no `'error'` listener. An open or write
  failure reported asynchronously on them (such as EACCES or EBUSY) is an unhandled `'error'`
  event, which is an uncaught exception in the main process. It is not modelled: the model
  keeps the stream and the disk as if the write succeeded.
- `Logger.HistoryKeepsNewest`: covers bounds of zero and above. A negative `MaxLogHistory`
  (config.js:56 passes `-5` through) is covered by `Logger.NonPositiveCapKeepsNoHistory`, which
  starts from the empty history every logger is created with.
- `Logger.RenderMasks`: every argument is taken as a JSON value. Functions, `undefined`, and
  objects that `JSON.stringify` handles specially are not modelled.
- `Automation.ClassifyApp`: an object `Names` with a numeric `length` member is not modelled. It
  is treated as skipped, whereas the source would index it.
- `Automation.RunCycle`: other events arriving while a cycle awaits its requests are not
  modelled. Each cycle runs atomically with respect to messages. The outcomes of the removal
  requests are not modelled, because the loop ignores them. The controller's requests use plain
  `node-fetch` with no timeout (monitor-main.js:3, :31, :49, :67). A request that never settles,
  which would leave the cycle hanging, is not modelled: every request has an outcome.
- `Automation.StartTimer`: the 60-second period of the timer is not modelled, because time is
  not modelled. A timer is an id, and a cycle is an event.
- `Automation.HandleAuth`: the credential is the one the message carries. A login message is
  only ever sent with a truthy credential.
