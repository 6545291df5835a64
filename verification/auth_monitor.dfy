/** The login watcher injected into the node's web UI (`checkAuthState` in monitor-preload.js).

    Every two seconds, and once when the page has loaded, the watcher reads the stored
    `zelidauth` credential and tells the main process about a change. The reading is an input
    (`Some(text)` or `None` for a missing item); the message sent is an output. */
module AuthMonitor {
  import opened Options
  import FluxApi

  /** The `auth-state-changed` message: `{loggedIn, token}`. */
  datatype AuthMessage = AuthMessage(loggedIn: bool, token: Option<string>)

  const LoggedOut: AuthMessage := AuthMessage(false, None)

  /** The watcher's memory after one check, and the message the check sent, if any. */
  datatype Check = Check(last: Option<string>, sent: Option<AuthMessage>)

  /** What the main process should believe about a stored value: the credential when it is
      truthy, nothing otherwise (an empty stored value counts as logged out). */
  function Seen(stored: Option<string>): (r: Option<string>)
    ensures r.Some? ==> FluxApi.HasToken(r)
  {
    if FluxApi.HasToken(stored) then stored else None
  }

  /** The watcher's memory is only ever `null` or a credential it has announced. */
  predicate ValidMemory(last: Option<string>) {
    last.None? || FluxApi.HasToken(last)
  }

  /** `checkAuthState` with `lastSentToken == last` and the stored value `current`. */
  function CheckAuthState(last: Option<string>, current: Option<string>): (r: Check)
    ensures ValidMemory(r.last)
    ensures ValidMemory(last) ==> r.last == Seen(current)
    ensures ValidMemory(last) ==> (r.sent.Some? <==> Seen(current) != last)
    ensures r.sent.Some? ==> r.sent.value == AuthMessage(FluxApi.HasToken(current), Seen(current))
  {
    if FluxApi.HasToken(current) && current != last then Check(current, Some(AuthMessage(true, current)))
    else if !FluxApi.HasToken(current) && last.Some? then Check(None, Some(LoggedOut))
    else Check(last, None)
  }

  // ---------------------------------------------------------------------------
  // Runs of checks

  /** The watcher's memory and the messages sent, after checking each stored value in turn. */
  datatype Trace = Trace(last: Option<string>, sent: seq<AuthMessage>)

  function Observe(start: Option<string>, readings: seq<Option<string>>): Trace
    decreases |readings|
  {
    if |readings| == 0 then Trace(start, [])
    else
      var before := Observe(start, readings[..|readings| - 1]);
      var c := CheckAuthState(before.last, readings[|readings| - 1]);
      Trace(c.last, before.sent + (if c.sent.Some? then [c.sent.value] else []))
  }

  /** The credential the receiver of `sent` was last told about, starting from `start`. */
  function Announced(start: Option<string>, sent: seq<AuthMessage>): Option<string> {
    if |sent| == 0 then start else sent[|sent| - 1].token
  }

  /** A message that changes what a receiver told `prior` believes: a login with a new
      credential, or a logout after a login. */
  predicate Changes(prior: Option<string>, m: AuthMessage) {
    if m.loggedIn then FluxApi.HasToken(m.token) && m.token != prior
    else m.token.None? && prior.Some?
  }

  /** Every message changes what its receiver believes: no duplicate login, no logout
      without a preceding login, no two logouts in a row. */
  predicate OnlyChanges(start: Option<string>, sent: seq<AuthMessage>) {
    forall k :: 0 <= k < |sent| ==> Changes(Announced(start, sent[..k]), sent[k])
  }

  /** After any run of checks, the watcher's memory is what its messages announced,
      the memory is the view of the last reading, and every message sent was a change. */
  lemma {:induction false} ObserveAnnounces(start: Option<string>, readings: seq<Option<string>>)
    requires ValidMemory(start)
    ensures Observe(start, readings).last == Announced(start, Observe(start, readings).sent)
    ensures |readings| > 0 ==> Observe(start, readings).last == Seen(readings[|readings| - 1])
    ensures OnlyChanges(start, Observe(start, readings).sent)
    decreases |readings|
  {
    if |readings| > 0 {
      var init := readings[..|readings| - 1];
      var before := Observe(start, init);
      ObserveAnnounces(start, init);
      var current := readings[|readings| - 1];
      var c := CheckAuthState(before.last, current);
      assert ValidMemory(before.last);
      if c.sent.Some? {
        assert Changes(before.last, c.sent.value);
        OnlyChangesSnoc(start, before.sent, c.sent.value);
      } else {
        assert before.sent + [] == before.sent;
      }
    }
  }

  /** A run of changes stays one when a further change is sent. */
  lemma OnlyChangesSnoc(start: Option<string>, sent: seq<AuthMessage>, m: AuthMessage)
    requires OnlyChanges(start, sent) && Changes(Announced(start, sent), m)
    ensures OnlyChanges(start, sent + [m])
  {
    var more := sent + [m];
    assert more[..|sent|] == sent;
    forall k | 0 <= k < |more|
      ensures Changes(Announced(start, more[..k]), more[k])
    {
      if k < |sent| {
        assert more[..k] == sent[..k];
      }
    }
  }

  /** A stored credential that stays the same is announced at most once. */
  lemma SteadyCredentialSilent(last: Option<string>, current: Option<string>)
    requires ValidMemory(last) && last == Seen(current)
    ensures CheckAuthState(last, current).sent.None?
    ensures CheckAuthState(last, current).last == last
  {
  }
}
