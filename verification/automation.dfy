/** The main-process controller (monitor-main.js): the stored credential, the recurring
    automation timer, the `auth-state-changed` handler and one automation cycle.

    The network is abstracted as in `FluxApi`: the heartbeat and listing requests' outcomes
    are inputs. The requests a cycle sends are outputs. Timers are modelled by their ids:
    `setInterval` hands out a fresh id, `clearInterval` retires it. */
module Automation {
  import opened Options
  import opened Json
  import opened Text
  import FluxApi
  import AuthMonitor

  const TargetAppPrefix: string := "StuckContainer"
  const ApiBaseUrl: string := "http://1.2.3.4:16127"

  // ---------------------------------------------------------------------------
  // isTokenValid

  /** The heartbeat request, or `None` when no credential is held and none is sent. */
  function HeartbeatRequest(token: Option<string>): (r: Option<FluxApi.Request>)
    ensures r.Some? <==> FluxApi.HasToken(token)
    ensures r.Some? ==> r.value.zelidauth == token.value
    ensures r.Some? ==> r.value.url == ApiBaseUrl + "/id/loggedsessions"
  {
    if FluxApi.HasToken(token) then Some(FluxApi.Request(ApiBaseUrl + "/id/loggedsessions", token.value)) else None
  }

  /** `isTokenValid`: `false` without a credential or when the request throws, otherwise
      whether the status is 2xx. */
  function IsTokenValid(token: Option<string>, probe: FluxApi.FetchOutcome): (valid: bool)
    ensures valid ==> HeartbeatRequest(token).Some? && probe.Responded? && FluxApi.Ok(probe.status)
  {
    if !FluxApi.HasToken(token) then false
    else
      match probe
      case Threw(_) => false
      case Responded(status, _, _) => FluxApi.Ok(status)
  }

  /** The heartbeat fails exactly on a missing credential, an exception, or a non-2xx status. */
  lemma TokenInvalidIff(token: Option<string>, probe: FluxApi.FetchOutcome)
    ensures !IsTokenValid(token, probe)
            <==> !FluxApi.HasToken(token) || probe.Threw? || (probe.Responded? && !FluxApi.Ok(probe.status))
  {
  }

  // ---------------------------------------------------------------------------
  // The application list of one cycle

  /** The local `listRunningApps`: the parsed body whatever the status, or `None` (`undefined`)
      without a credential, when the request throws or when the body is not JSON. */
  function FetchAppList(token: Option<string>, reply: FluxApi.FetchOutcome): (r: Option<Json>)
    ensures r.Some? ==> FluxApi.HasToken(token) && reply.Responded? && reply.parsed == r
    ensures FluxApi.HasToken(token) && reply.Responded? ==> r == reply.parsed
  {
    if !FluxApi.HasToken(token) then None
    else
      match reply
      case Threw(_) => None
      case Responded(_, _, parsed) => parsed
  }

  /** `appsResponse && appsResponse.status === 'success' && appsResponse.data`. */
  predicate Listable(response: Option<Json>) {
    && response.Some?
    && Truthy(response.value)
    && Member(response.value, "status") == Some(JStr("success"))
    && Member(response.value, "data").Some?
    && Truthy(Member(response.value, "data").value)
  }

  /** What the cycle does with one entry of the list. `Abort` is a `TypeError` that ends
      the cycle: reading `Names` of `null`, or calling `startsWith` on a first name that
      is not a string. */
  datatype Verdict = Skip | Remove(name: string) | Abort

  /** The container name with one leading "/" removed. */
  function StripSlash(containerName: string): (r: string)
    ensures StartsWith(containerName, "/") ==> "/" + r == containerName
    ensures !StartsWith(containerName, "/") ==> r == containerName
  {
    if StartsWith(containerName, "/") then containerName[1..] else containerName
  }

  /** The main application name: the container name, without its leading "/", from the first
      occurrence of the target prefix on; `None` when the prefix does not occur. */
  function MainAppName(containerName: string): (r: Option<string>)
    ensures r.Some? <==> Contains(StripSlash(containerName), TargetAppPrefix)
  {
    var stripped := StripSlash(containerName);
    match IndexOf(stripped, TargetAppPrefix)
    case Some(i) => Some(stripped[i..])
    case None => None
  }

  function NameVerdict(containerName: string): (v: Verdict)
    ensures !v.Abort?
  {
    match MainAppName(containerName)
    case Some(m) => Remove(m)
    case None => Skip
  }

  /** One iteration of the loop over the application list. */
  function ClassifyApp(app: Json): (v: Verdict)
    ensures v.Abort? ==> app.JNull? || app.JObj?
    ensures app.JObj? && Member(app, "Names").None? ==> v == Skip
    ensures Member(app, "Names") == Some(JArr([])) ==> v == Skip
    ensures var names := Member(app, "Names");
            names.Some? && names.value.JArr? && |names.value.items| > 0 && !names.value.items[0].JStr? ==> v == Abort
  {
    match app
    case JNull => Abort
    case JObj(fields) =>
      (match Lookup(fields, "Names")
       case Some(JArr(names)) =>
         if |names| == 0 then Skip
         else if names[0].JStr? then NameVerdict(names[0].s)
         else Abort
       case Some(JStr(s)) => if |s| == 0 then Skip else NameVerdict([s[0]])
       case _ => Skip)
    case _ => Skip
  }

  /** The main application names the loop removes, in list order, and whether the loop was
      cut short by an `Abort`. */
  datatype Scan = Scan(targets: seq<string>, aborted: bool)

  function ScanApps(apps: seq<Json>): Scan
    decreases |apps|
  {
    if |apps| == 0 then Scan([], false)
    else
      match ClassifyApp(apps[0])
      case Abort => Scan([], true)
      case Skip => ScanApps(apps[1..])
      case Remove(n) =>
        var rest := ScanApps(apps[1..]);
        Scan([n] + rest.targets, rest.aborted)
  }

  // ---------------------------------------------------------------------------
  // The controller

  /** The controller's globals: `zelidauth_token`, `automationIntervalId`, and, for reasoning,
      the ids of the recurring timers still live and the next id `setInterval` hands out. */
  datatype Controller = Controller(token: Option<string>, interval: Option<nat>, live: set<nat>, nextTimer: nat)

  const Initial: Controller := Controller(None, None, {}, 0)

  /** The held timer is the only live one, and every id handed out is below `nextTimer`. */
  predicate Inv(c: Controller) {
    && c.live == (if c.interval.Some? then {c.interval.value} else {})
    && (forall t :: t in c.live ==> t < c.nextTimer)
  }

  /** `clearInterval(automationIntervalId); automationIntervalId = null`
      (clearing `null` is a no-op). */
  function StopTimer(c: Controller): (r: Controller)
    ensures r.interval.None? && r.token == c.token && r.nextTimer == c.nextTimer
    ensures Inv(c) ==> Inv(r) && r.live == {}
  {
    match c.interval
    case Some(id) => c.(interval := None, live := c.live - {id})
    case None => c
  }

  /** `automationIntervalId = setInterval(runAutomationCycle, 60000)`. */
  function StartTimer(c: Controller): (r: Controller)
    requires c.interval.None?
    ensures r.interval == Some(c.nextTimer) && r.token == c.token
    ensures Inv(c) ==> Inv(r) && |r.live| == 1
  {
    c.(interval := Some(c.nextTimer), live := c.live + {c.nextTimer}, nextTimer := c.nextTimer + 1)
  }

  /** The handler's new state, and whether it started a cycle right away. */
  datatype Handled = Handled(c: Controller, startedCycle: bool)

  /** The `auth-state-changed` handler. */
  function HandleAuth(c: Controller, msg: AuthMonitor.AuthMessage): (h: Handled)
    ensures Inv(c) ==> Inv(h.c)
    ensures msg.loggedIn ==> h.c.token == msg.token && h.c.interval.Some?
    ensures msg.loggedIn ==> (h.startedCycle <==> c.interval.None?)
    ensures msg.loggedIn && c.interval.Some? ==> h.c == c.(token := msg.token)
    ensures !msg.loggedIn ==> h.c.token.None? && h.c.interval.None? && !h.startedCycle
  {
    if msg.loggedIn then
      var c1 := c.(token := msg.token);
      if c.interval.None? then Handled(StartTimer(c1), true) else Handled(c1, false)
    else
      Handled(StopTimer(c.(token := None)), false)
  }

  /** What one `runAutomationCycle` did: the controller afterwards, the removal requests sent in
      order, whether it logged that the list could not be retrieved, and whether it ended in
      a `TypeError`. */
  datatype Cycle = Cycle(c: Controller, removals: seq<FluxApi.Request>, couldNotList: bool, aborted: bool)

  /** The removal requests for the given names, with the held credential. */
  function RemovalRequests(token: string, names: seq<string>): (rs: seq<FluxApi.Request>)
    requires |token| > 0
    ensures |rs| == |names|
    ensures forall k :: 0 <= k < |names| ==>
              Some(rs[k]) == FluxApi.RemoveRequest(ApiBaseUrl, Some(token), names[k])
  {
    seq(|names|, k requires 0 <= k < |names| =>
      FluxApi.RemoveRequest(ApiBaseUrl, Some(token), names[k]).value)
  }

  /** `runAutomationCycle` given the outcomes of the heartbeat and listing requests.
      Interleaving with other events during its `await`s is not modelled. */
  function RunCycle(c: Controller, heartbeat: FluxApi.FetchOutcome, listing: FluxApi.FetchOutcome): (r: Cycle)
    ensures Inv(c) ==> Inv(r.c)
    ensures !IsTokenValid(c.token, heartbeat) ==>
              r.c == StopTimer(c.(token := None)) && r.removals == [] && !r.couldNotList && !r.aborted
    ensures IsTokenValid(c.token, heartbeat) ==> r.c == c
    ensures |r.removals| > 0 ==> IsTokenValid(c.token, heartbeat) && Listable(FetchAppList(c.token, listing))
    ensures r.couldNotList <==> IsTokenValid(c.token, heartbeat) && !Listable(FetchAppList(c.token, listing))
    ensures IsTokenValid(c.token, heartbeat) && !Listable(FetchAppList(c.token, listing)) ==>
              r.removals == [] && !r.aborted
    ensures IsTokenValid(c.token, heartbeat) && Listable(FetchAppList(c.token, listing)) ==>
              var data := Member(FetchAppList(c.token, listing).value, "data").value;
              && (data.JArr? ==> r.removals == RemovalRequests(c.token.value, ScanApps(data.items).targets)
                                 && r.aborted == ScanApps(data.items).aborted)
              && (!data.JArr? ==> r.removals == [] && (r.aborted <==> !data.JStr?))
  {
    if !IsTokenValid(c.token, heartbeat) then
      Cycle(StopTimer(c.(token := None)), [], false, false)
    else
      var response := FetchAppList(c.token, listing);
      if Listable(response) then
        match Member(response.value, "data").value
        case JArr(apps) =>
          var scan := ScanApps(apps);
          Cycle(c, RemovalRequests(c.token.value, scan.targets), false, scan.aborted)
        case JStr(_) => Cycle(c, [], false, false)  // iterating a string yields one-letter strings
        case _ => Cycle(c, [], false, true)          // not iterable
      else
        Cycle(c, [], FluxApi.HasToken(c.token), false)
  }

  // ---------------------------------------------------------------------------
  // Runs of events

  /** What can happen to the controller: an `auth-state-changed` message, or a cycle running
      (from the timer, or the one started by a login) with its requests' outcomes. */
  datatype Event =
    | Auth(msg: AuthMonitor.AuthMessage)
    | Tick(heartbeat: FluxApi.FetchOutcome, listing: FluxApi.FetchOutcome)

  function Step(c: Controller, e: Event): Controller {
    match e
    case Auth(msg) => HandleAuth(c, msg).c
    case Tick(heartbeat, listing) => RunCycle(c, heartbeat, listing).c
  }

  function Run(c: Controller, events: seq<Event>): Controller
    decreases |events|
  {
    if |events| == 0 then c else Run(Step(c, events[0]), events[1..])
  }

  // ---------------------------------------------------------------------------
  // Lemmas

  /** Whatever messages and cycles arrive, at most one recurring timer is ever live, and it is
      the one the controller holds: a repeated login never arms a second loop. */
  lemma {:induction false} AtMostOneLoop(c: Controller, events: seq<Event>)
    requires Inv(c)
    ensures Inv(Run(c, events))
    ensures |Run(c, events).live| <= 1
    decreases |events|
  {
    if |events| > 0 {
      AtMostOneLoop(Step(c, events[0]), events[1..]);
    } else {
      assert c.live == {} || c.live == {c.interval.value};
    }
  }

  /** A second login while the loop runs only replaces the credential. */
  lemma RepeatedLoginKeepsLoop(c: Controller, token: Option<string>, token2: Option<string>)
    requires Inv(c)
    ensures var h1 := HandleAuth(c, AuthMonitor.AuthMessage(true, token));
            var h2 := HandleAuth(h1.c, AuthMonitor.AuthMessage(true, token2));
            && !h2.startedCycle
            && h2.c.interval == h1.c.interval && h2.c.live == h1.c.live
            && h2.c.token == token2
  {
  }

  /** A cycle without a credential (after a logout or a failed heartbeat) sends nothing. */
  lemma LoggedOutCycleSendsNothing(c: Controller, heartbeat: FluxApi.FetchOutcome, listing: FluxApi.FetchOutcome)
    requires !FluxApi.HasToken(c.token)
    ensures HeartbeatRequest(c.token).None?
    ensures RunCycle(c, heartbeat, listing).removals == []
    ensures RunCycle(c, heartbeat, listing).c.interval.None?
  {
  }

  /** Every removal targets the main application of a listed container: a name that starts
      with the target prefix and ends its container name, taken from the prefix's first occurrence. */
  lemma MainAppNameShape(containerName: string)
    requires MainAppName(containerName).Some?
    ensures var stripped := StripSlash(containerName);
            var m := MainAppName(containerName).value;
            && StartsWith(m, TargetAppPrefix)
            && |m| <= |stripped| && stripped[|stripped| - |m|..] == m
            && forall j: nat :: j < |stripped| - |m| ==> !OccursAt(stripped, TargetAppPrefix, j)
  {
    var stripped := StripSlash(containerName);
    var i := IndexOf(stripped, TargetAppPrefix).value;
    assert OccursAt(stripped, TargetAppPrefix, i);
    assert stripped[i..][..|TargetAppPrefix|] == stripped[i..i + |TargetAppPrefix|];
  }

  /** A component container `/<component><prefix><rest>` whose component part cannot start the
      prefix (it has no "S") yields the main application `<prefix><rest>`;
      `/zel_Component_StuckContainerXYZ` yields `StuckContainerXYZ`. */
  lemma ComponentNameYieldsMainApp(component: string, rest: string)
    requires forall c :: c in component ==> c != 'S'
    ensures MainAppName("/" + component + TargetAppPrefix + rest) == Some(TargetAppPrefix + rest)
  {
    var name := "/" + component + TargetAppPrefix + rest;
    var stripped := component + (TargetAppPrefix + rest);
    assert StartsWith(name, "/");
    assert name[1..] == stripped;
    var i := |component|;
    assert stripped[i..i + |TargetAppPrefix|] == TargetAppPrefix;
    NotBefore(component, TargetAppPrefix + rest, TargetAppPrefix);
    FirstOccurrence(stripped, TargetAppPrefix, i);
    assert stripped[i..] == TargetAppPrefix + rest;
  }

  /** An occurrence with none before it is the one `indexOf` finds. */
  lemma FirstOccurrence(s: string, sub: string, i: nat)
    requires OccursAt(s, sub, i) && forall j: nat :: j < i ==> !OccursAt(s, sub, j)
    ensures IndexOf(s, sub) == Some(i)
  {
  }

  /** A text that does not contain the first letter of `sub` holds no occurrence of it. */
  lemma NotBefore(head: string, tail: string, sub: string)
    requires |sub| > 0 && forall c :: c in head ==> c != sub[0]
    ensures forall j: nat :: j < |head| ==> !OccursAt(head + tail, sub, j)
  {
    forall j: nat | j < |head|
      ensures !OccursAt(head + tail, sub, j)
    {
      assert head[j] in head;
    }
  }

  /** An entry ends the loop exactly when it is `null` or its first name is not a string. */
  lemma ClassifyAbortsIff(app: Json)
    ensures ClassifyApp(app).Abort? <==>
              || app.JNull?
              || (&& Member(app, "Names").Some?
                  && Member(app, "Names").value.JArr?
                  && |Member(app, "Names").value.items| > 0
                  && !Member(app, "Names").value.items[0].JStr?)
  {
  }

  /** Only the first of several names is looked at. */
  lemma OnlyFirstNameCounts(fields: seq<Field>, first: string, others: seq<Json>)
    requires Lookup(fields, "Names") == Some(JArr([JStr(first)] + others))
    ensures ClassifyApp(JObj(fields)) == NameVerdict(first)
  {
  }

  /** A one-string `Names` is indexed as a string: its first letter is never a target. */
  lemma StringNamesNeverRemoved(fields: seq<Field>, s: string)
    requires Lookup(fields, "Names") == Some(JStr(s))
    ensures ClassifyApp(JObj(fields)) == Skip
  {
    if |s| > 0 {
      var one := [s[0]];
      assert forall j :: 0 <= j ==> !OccursAt(StripSlash(one), TargetAppPrefix, j);
      assert MainAppName(one).None?;
    }
  }

  /** An entry yields a removal exactly when it is an object whose `Names` is a non-empty array
      with a string first name holding the target prefix; the name removed is that name's main
      application name. Every other entry, whatever its shape, is skipped or ends the loop. */
  lemma ClassifyRemovesIff(app: Json, n: string)
    ensures ClassifyApp(app) == Remove(n) <==>
              && app.JObj?
              && Member(app, "Names").Some?
              && Member(app, "Names").value.JArr?
              && |Member(app, "Names").value.items| > 0
              && Member(app, "Names").value.items[0].JStr?
              && MainAppName(Member(app, "Names").value.items[0].s) == Some(n)
  {
    if app.JObj? && Member(app, "Names").Some? && Member(app, "Names").value.JStr? {
      StringNamesNeverRemoved(app.fields, Member(app, "Names").value.s);
    }
  }

  /** The loop visits the list in order and does not stop after a removal: scanning a
      concatenation scans the parts one after the other, unless the first part aborts. */
  lemma ScanAppend(a: seq<Json>, b: seq<Json>)
    ensures !ScanApps(a).aborted ==>
              ScanApps(a + b) == Scan(ScanApps(a).targets + ScanApps(b).targets, ScanApps(b).aborted)
    ensures ScanApps(a).aborted ==> ScanApps(a + b) == ScanApps(a)
  {
    if ScanApps(a).aborted {
      ScanAppendAborted(a, b);
    } else {
      ScanAppendClear(a, b);
    }
  }

  lemma {:induction false} ScanAppendClear(a: seq<Json>, b: seq<Json>)
    requires !ScanApps(a).aborted
    ensures ScanApps(a + b) == Scan(ScanApps(a).targets + ScanApps(b).targets, ScanApps(b).aborted)
    decreases |a|
  {
    if |a| == 0 {
      assert a + b == b;
    } else {
      assert (a + b)[0] == a[0];
      assert (a + b)[1..] == a[1..] + b;
      ScanUnfold(a);
      ScanUnfold(a + b);
      ScanAppendClear(a[1..], b);
      var v := ClassifyApp(a[0]);
      if v.Remove? {
        assert [v.name] + ScanApps(a[1..]).targets + ScanApps(b).targets
               == [v.name] + (ScanApps(a[1..]).targets + ScanApps(b).targets);
      }
    }
  }

  lemma {:induction false} ScanAppendAborted(a: seq<Json>, b: seq<Json>)
    requires ScanApps(a).aborted
    ensures ScanApps(a + b) == ScanApps(a)
    decreases |a|
  {
    assert |a| > 0;
    assert (a + b)[0] == a[0];
    assert (a + b)[1..] == a[1..] + b;
    ScanUnfold(a);
    ScanUnfold(a + b);
    if !ClassifyApp(a[0]).Abort? {
      ScanAppendAborted(a[1..], b);
    }
  }

  /** What the loop does with the first entry, given what it does with the rest. */
  function ScanHead(v: Verdict, rest: Scan): Scan {
    match v
    case Abort => Scan([], true)
    case Skip => rest
    case Remove(n) => Scan([n] + rest.targets, rest.aborted)
  }

  lemma ScanUnfold(apps: seq<Json>)
    requires |apps| > 0
    ensures ScanApps(apps) == ScanHead(ClassifyApp(apps[0]), ScanApps(apps[1..]))
  {
  }

  /** No entry before position `k` aborts the loop. */
  predicate ClearBefore(apps: seq<Json>, k: nat)
    requires k <= |apps|
  {
    forall l :: 0 <= l < k ==> !ClassifyApp(apps[l]).Abort?
  }

  /** The entry at `k` yields `n` and the loop reaches it. */
  predicate YieldsAt(apps: seq<Json>, n: string, k: nat) {
    k < |apps| && ClassifyApp(apps[k]) == Remove(n) && ClearBefore(apps, k)
  }

  lemma YieldsAtShift(apps: seq<Json>, n: string, k: nat)
    requires |apps| > 0 && !ClassifyApp(apps[0]).Abort?
    ensures YieldsAt(apps, n, k + 1) <==> YieldsAt(apps[1..], n, k)
  {
    if k + 1 < |apps| {
      assert apps[1..][k] == apps[k + 1];
      if ClearBefore(apps[1..], k) {
        forall l | 0 <= l < k + 1
          ensures !ClassifyApp(apps[l]).Abort?
        {
          if l > 0 {
            assert apps[l] == apps[1..][l - 1];
          }
        }
      }
      if ClearBefore(apps, k + 1) {
        forall l | 0 <= l < k
          ensures !ClassifyApp(apps[1..][l]).Abort?
        {
          assert apps[1..][l] == apps[l + 1];
        }
      }
    }
  }

  /** The loop aborts exactly when some entry aborts. */
  lemma {:induction false} ScanAbortsIff(apps: seq<Json>)
    ensures ScanApps(apps).aborted <==> exists k :: 0 <= k < |apps| && ClassifyApp(apps[k]).Abort?
    decreases |apps|
  {
    if |apps| > 0 {
      var rest := apps[1..];
      ScanAbortsIff(rest);
      ScanAbortStep(apps);
      if exists k :: 0 <= k < |rest| && ClassifyApp(rest[k]).Abort? {
        var k :| 0 <= k < |rest| && ClassifyApp(rest[k]).Abort?;
        assert apps[k + 1] == rest[k];
      }
      if exists k :: 0 <= k < |apps| && ClassifyApp(apps[k]).Abort? {
        var k :| 0 <= k < |apps| && ClassifyApp(apps[k]).Abort?;
        if k > 0 {
          assert rest[k - 1] == apps[k];
        }
      }
    }
  }

  /** The loop aborts at its first entry or later in the rest. */
  lemma ScanAbortStep(apps: seq<Json>)
    requires |apps| > 0
    ensures ScanApps(apps).aborted <==> ClassifyApp(apps[0]).Abort? || ScanApps(apps[1..]).aborted
  {
  }

  /** A name is removed exactly when an entry the loop reaches yields it. */
  lemma {:induction false} ScanTargetsIff(apps: seq<Json>, n: string)
    ensures n in ScanApps(apps).targets <==> exists k: nat :: YieldsAt(apps, n, k)
    decreases |apps|
  {
    if |apps| > 0 {
      var rest := apps[1..];
      var v := ClassifyApp(apps[0]);
      if v.Abort? {
        assert ScanApps(apps).targets == [];
        NothingAfterAbort(apps, n);
      } else {
        ScanTargetsIff(rest, n);
        ScanStep(apps);
        ShiftBoth(apps, n);
        assert YieldsAt(apps, n, 0) <==> v == Remove(n);
        if exists k: nat :: YieldsAt(apps, n, k) {
          var k: nat :| YieldsAt(apps, n, k);
          assert k == 0 || (k > 0 && YieldsAt(apps, n, k));
        }
      }
    }
  }

  /** The first entry's verdict heads the scan when it does not abort. */
  lemma ScanStep(apps: seq<Json>)
    requires |apps| > 0 && !ClassifyApp(apps[0]).Abort?
    ensures ScanApps(apps).targets
            == (if ClassifyApp(apps[0]).Remove? then [ClassifyApp(apps[0]).name] else []) + ScanApps(apps[1..]).targets
  {
    if ClassifyApp(apps[0]).Skip? {
      assert [] + ScanApps(apps[1..]).targets == ScanApps(apps[1..]).targets;
    }
  }

  /** Nothing is reached past an aborting first entry. */
  lemma NothingAfterAbort(apps: seq<Json>, n: string)
    requires |apps| > 0 && ClassifyApp(apps[0]).Abort?
    ensures forall k: nat :: !YieldsAt(apps, n, k)
  {
    var first := ClassifyApp(apps[0]);
    forall k: nat
      ensures !YieldsAt(apps, n, k)
    {
      if k == 0 {
        assert first != Remove(n);
      } else if k < |apps| {
        assert first.Abort?;
        assert !ClearBefore(apps, k);
      }
    }
  }

  lemma ShiftBoth(apps: seq<Json>, n: string)
    requires |apps| > 0 && !ClassifyApp(apps[0]).Abort?
    ensures (exists k: nat :: YieldsAt(apps[1..], n, k)) <==> (exists k: nat :: k > 0 && YieldsAt(apps, n, k))
  {
    if exists k: nat :: YieldsAt(apps[1..], n, k) {
      var k: nat :| YieldsAt(apps[1..], n, k);
      YieldsAtShift(apps, n, k);
    }
    if exists k: nat :: k > 0 && YieldsAt(apps, n, k) {
      var k: nat :| k > 0 && YieldsAt(apps, n, k);
      YieldsAtShift(apps, n, k - 1);
    }
  }

  /** A removal request names its application: two requests with the same credential are
      equal exactly when they name the same application. */
  lemma RemovalRequestNamesApp(token: string, a: string, b: string)
    requires |token| > 0
    ensures FluxApi.RemoveRequest(ApiBaseUrl, Some(token), a) == FluxApi.RemoveRequest(ApiBaseUrl, Some(token), b)
            <==> a == b
  {
    var prefix := ApiBaseUrl + "/apps/appremove?appname=";
    if FluxApi.RemoveRequest(ApiBaseUrl, Some(token), a) == FluxApi.RemoveRequest(ApiBaseUrl, Some(token), b) {
      assert (prefix + a)[|prefix|..] == a;
      assert (prefix + b)[|prefix|..] == b;
    }
  }

  /** The removal for `n` is among the requests exactly when `n` is among the names. */
  lemma RemovalRequestsFor(token: string, names: seq<string>, n: string)
    requires |token| > 0
    ensures FluxApi.RemoveRequest(ApiBaseUrl, Some(token), n).value in RemovalRequests(token, names) <==> n in names
  {
    var rs := RemovalRequests(token, names);
    var want := FluxApi.RemoveRequest(ApiBaseUrl, Some(token), n);
    if want.value in rs {
      var k :| 0 <= k < |rs| && rs[k] == want.value;
      RemovalRequestNamesApp(token, names[k], n);
    }
    if n in names {
      var k :| 0 <= k < |names| && names[k] == n;
      assert rs[k] == want.value;
    }
  }

  /** A cycle with a valid credential and a listed array of applications asks to remove an
      application exactly when an entry the loop reaches, before any `TypeError`, yields it. */
  lemma CycleRemovesExactlyReached(c: Controller, heartbeat: FluxApi.FetchOutcome,
                                   listing: FluxApi.FetchOutcome, n: string)
    requires IsTokenValid(c.token, heartbeat) && Listable(FetchAppList(c.token, listing))
    requires Member(FetchAppList(c.token, listing).value, "data").value.JArr?
    ensures var apps := Member(FetchAppList(c.token, listing).value, "data").value.items;
            FluxApi.RemoveRequest(ApiBaseUrl, c.token, n).value in RunCycle(c, heartbeat, listing).removals
            <==> exists k: nat :: YieldsAt(apps, n, k)
  {
    var apps := Member(FetchAppList(c.token, listing).value, "data").value.items;
    ScanTargetsIff(apps, n);
    RemovalRequestsFor(c.token.value, ScanApps(apps).targets, n);
  }
}
