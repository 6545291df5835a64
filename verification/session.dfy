/** The two processes together: the watcher in the web page (monitor-preload.js) polls the
    stored credential and messages the controller in the main process (monitor-main.js),
    whose cycles may drop the credential when the heartbeat fails. */
module Session {
  import opened Options
  import FluxApi
  import AuthMonitor
  import Automation

  /** The watcher's `lastSentToken` and the controller's globals. */
  datatype World = World(last: Option<string>, c: Automation.Controller)

  const Start: World := World(None, Automation.Initial)

  /** A poll of the stored credential (by the timer or on page load), or a cycle of the controller. */
  datatype Event =
    | Poll(stored: Option<string>)
    | Tick(heartbeat: FluxApi.FetchOutcome, listing: FluxApi.FetchOutcome)

  function Step(w: World, e: Event): World {
    match e
    case Poll(stored) =>
      var check := AuthMonitor.CheckAuthState(w.last, stored);
      World(check.last, if check.sent.Some? then Automation.HandleAuth(w.c, check.sent.value).c else w.c)
    case Tick(heartbeat, listing) =>
      World(w.last, Automation.RunCycle(w.c, heartbeat, listing).c)
  }

  function Run(w: World, events: seq<Event>): World
    decreases |events|
  {
    if |events| == 0 then w else Run(Step(w, events[0]), events[1..])
  }

  /** The loop runs exactly while the controller holds a credential, and the credential it
      holds is the one the watcher last announced. */
  predicate Coherent(w: World) {
    && AuthMonitor.ValidMemory(w.last)
    && Automation.Inv(w.c)
    && (w.c.interval.Some? <==> w.c.token.Some?)
    && (w.c.token.Some? ==> w.c.token == w.last)
  }

  lemma StepCoherent(w: World, e: Event)
    requires Coherent(w)
    ensures Coherent(Step(w, e))
  {
  }

  /** Coherence holds from start-up on, whatever is polled and however the heartbeats go. */
  lemma {:induction false} RunCoherent(w: World, events: seq<Event>)
    requires Coherent(w)
    ensures Coherent(Run(w, events))
    ensures |Run(w, events).c.live| <= 1
    decreases |events|
  {
    if |events| == 0 {
      assert w.c.live == {} || w.c.live == {w.c.interval.value};
    } else {
      StepCoherent(w, events[0]);
      RunCoherent(Step(w, events[0]), events[1..]);
    }
  }

  lemma StartCoherent()
    ensures Coherent(Start)
  {
  }

  /** While the controller is in step with the watcher, a poll hands it the stored credential:
      a truthy one arms the loop, and a missing or empty one stops it. */
  lemma PollHandsOverCredential(w: World, stored: Option<string>)
    requires Coherent(w) && w.c.token == w.last
    ensures Step(w, Poll(stored)).c.token == AuthMonitor.Seen(stored)
    ensures Step(w, Poll(stored)).c.interval.Some? <==> FluxApi.HasToken(stored)
  {
  }

  /** A failed heartbeat pauses the loop, and it stays paused while the stored credential is the
      one that failed: the watcher announces a credential only when it changes. */
  lemma PausedUntilCredentialChanges(w: World, heartbeat: FluxApi.FetchOutcome, listing: FluxApi.FetchOutcome,
                                     stored: Option<string>)
    requires Coherent(w) && w.last.Some?
    requires !Automation.IsTokenValid(w.c.token, heartbeat)
    requires AuthMonitor.Seen(stored) == w.last
    ensures var paused := Step(w, Tick(heartbeat, listing));
            && paused.c.token.None? && paused.c.interval.None?
            && Step(paused, Poll(stored)) == paused
  {
  }
}
