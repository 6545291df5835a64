/** The node API client (src/flux-api.js) as pure classifiers.

    The network is abstracted away: each call's `fetchWithTimeout` result is an input,
    a `FetchOutcome`, and the functions map it to what the source returns. */
module FluxApi {
  import opened Options
  import opened Json
  import opened Text

  /** What one request produced: an exception (connection error, DNS failure, the 10-second
      timeout of `fetchWithTimeout`, a body that could not be read), or a response with its
      status, its body text and the result of `JSON.parse` on that text (`None` when the parse
      throws). The controller in monitor-main.js uses plain `fetch` with no timeout; a request
      there that never settles has no outcome in this type. */
  datatype FetchOutcome =
    | Threw(message: string)
    | Responded(status: int, text: string, parsed: Option<Json>)

  /** `response.ok`. */
  predicate Ok(status: int) {
    200 <= status <= 299
  }

  /** JavaScript truthiness of a credential held as a string or `null`. */
  predicate HasToken(token: Option<string>) {
    token.Some? && |token.value| > 0
  }

  // ---------------------------------------------------------------------------
  // checkFluxNodeExistence

  /** `checkFluxNodeExistence`: a node exists when the listing request did not throw. */
  function NodeExists(probe: FetchOutcome): bool {
    !probe.Threw?
  }

  /** Existence is decided by the transport alone: any status and any body count as alive,
      and every exception counts as absent. */
  lemma NodeExistsIgnoresResponse(status: int, text: string, parsed: Option<Json>, message: string)
    ensures NodeExists(Responded(status, text, parsed))
    ensures !NodeExists(Threw(message))
  {
  }

  // ---------------------------------------------------------------------------
  // listRunningApps

  /** A listing reply the source accepts: HTTP 2xx, a JSON body whose `status` is
      `"success"` and whose `data` is the array `apps`. */
  predicate AcceptedListing(reply: FetchOutcome, apps: seq<Json>) {
    && reply.Responded?
    && Ok(reply.status)
    && reply.parsed.Some?
    && Member(reply.parsed.value, "status") == Some(JStr("success"))
    && Member(reply.parsed.value, "data") == Some(JArr(apps))
  }

  /** `listRunningApps`: the app array of an accepted reply, `[]` for every other outcome. */
  function ListRunningApps(reply: FetchOutcome): (apps: seq<Json>)
    ensures AcceptedListing(reply, apps) || (apps == [] && forall a :: !AcceptedListing(reply, a))
  {
    match reply
    case Threw(_) => []
    case Responded(status, _, parsed) =>
      if !Ok(status) then []
      else if parsed.None? then []           // response.json() throws
      else if parsed.value.JNull? then []    // reading `null.status` throws
      else
        var data := parsed.value;
        if Member(data, "status") == Some(JStr("success")) && Member(data, "data").Some?
           && Member(data, "data").value.JArr?
        then Member(data, "data").value.items
        else []
  }

  /** Whenever a reply is accepted, its array is what the caller gets back. */
  lemma AcceptedListingReturned(reply: FetchOutcome, apps: seq<Json>)
    requires AcceptedListing(reply, apps)
    ensures ListRunningApps(reply) == apps
  {
  }

  // ---------------------------------------------------------------------------
  // removeApp

  /** The request `removeApp` sends: the removal URL and the `zelidauth` header. */
  datatype Request = Request(url: string, zelidauth: string)

  /** The result object of `removeApp`: `{success: true, data}` or
      `{success: false, error, authError?}`, where `authError` may be left unset. */
  datatype RemoveResult =
    | Removed(data: string)
    | Failed(error: Json, authError: Option<bool>)

  const MissingTokenMessage: string := "Not logged in. Token is missing."

  /** The removal request, or `None` when no request is made because the token is missing. */
  function RemoveRequest(apiUrl: string, token: Option<string>, appName: string): (r: Option<Request>)
    ensures r.Some? <==> HasToken(token)
    ensures r.Some? ==> r.value.zelidauth == token.value
    ensures r.Some? ==> StartsWith(r.value.url, apiUrl) && r.value.url[|apiUrl|..] == "/apps/appremove?appname=" + appName
  {
    if HasToken(token) then Some(Request(apiUrl + "/apps/appremove?appname=" + appName, token.value)) else None
  }

  /** The `data` of an error payload, `{}` when it is missing or falsy (`jsonResponse.data || {}`). */
  function ErrorData(body: Json): Json {
    match Member(body, "data")
    case Some(d) => if Truthy(d) then d else JObj([])
    case None => JObj([])
  }

  /** `errorData.message || JSON.stringify(errorData)`. */
  function ErrorMessage(data: Json, stringify: Json -> string): Json {
    match Member(data, "message")
    case Some(m) => if Truthy(m) then m else JStr(stringify(data))
    case None => JStr(stringify(data))
  }

  /** A 2xx body that reports an application-level error. */
  predicate IsErrorPayload(parsed: Option<Json>) {
    parsed.Some? && Member(parsed.value, "status") == Some(JStr("error"))
  }

  /** An error payload that denies authority: code 401 or 403 (strict number comparison),
      or a string message containing "unauthorized" in any letter case. */
  predicate PayloadUnauthorized(body: Json, stringify: Json -> string) {
    var data := ErrorData(body);
    var message := ErrorMessage(data, stringify);
    || Member(data, "code") == Some(JNum(401))
    || Member(data, "code") == Some(JNum(403))
    || (message.JStr? && Contains(Lower(message.s), "unauthorized"))
  }

  /** `removeApp` given the token and the outcome of the removal request
      (the outcome is not consulted when no request is made). */
  function RemoveApp(token: Option<string>, reply: FetchOutcome, stringify: Json -> string): (r: RemoveResult)
    ensures !HasToken(token) ==> r == Failed(JStr(MissingTokenMessage), Some(true))
    ensures HasToken(token) && reply.Threw? ==> r == Failed(JStr(reply.message), None)
    ensures r.Removed? ==> reply.Responded? && Ok(reply.status) && r.data == reply.text
    ensures HasToken(token) && reply.Responded? && !Ok(reply.status) ==>
              && r.Failed? && r.authError == Some(reply.status == 401 || reply.status == 403)
              && r.error == JStr("HTTP error! Status: " + IntToString(reply.status))
    ensures HasToken(token) && reply.Responded? && Ok(reply.status) ==>
              (r.Failed? <==> IsErrorPayload(reply.parsed))
  {
    if !HasToken(token) then Failed(JStr(MissingTokenMessage), Some(true))
    else
      match reply
      case Threw(message) => Failed(JStr(message), None)
      case Responded(status, text, parsed) =>
        if !Ok(status) then
          Failed(JStr("HTTP error! Status: " + IntToString(status)), Some(status == 401 || status == 403))
        else if IsErrorPayload(parsed) then
          var data := ErrorData(parsed.value);
          Failed(ErrorMessage(data, stringify), Some(PayloadUnauthorized(parsed.value, stringify)))
        else
          Removed(text)
  }

  /** The auth flag is raised exactly when the credential is known to be missing or bad:
      no token, HTTP 401/403, or an error payload that says so. */
  lemma AuthErrorIff(token: Option<string>, reply: FetchOutcome, stringify: Json -> string)
    ensures RemoveApp(token, reply, stringify).Failed? && RemoveApp(token, reply, stringify).authError == Some(true)
            <==>
            || !HasToken(token)
            || (reply.Responded? && !Ok(reply.status) && (reply.status == 401 || reply.status == 403))
            || (reply.Responded? && Ok(reply.status) && IsErrorPayload(reply.parsed)
                && PayloadUnauthorized(reply.parsed.value, stringify))
  {
  }

  /** A removal succeeds exactly when a token is held, the transport answered 2xx and the
      body is not an error payload (a body that is not JSON counts as success). */
  lemma RemovedIff(token: Option<string>, reply: FetchOutcome, stringify: Json -> string)
    ensures RemoveApp(token, reply, stringify).Removed?
            <==> HasToken(token) && reply.Responded? && Ok(reply.status) && !IsErrorPayload(reply.parsed)
  {
  }

  /** Only an exception leaves the auth flag unset. */
  lemma AuthFlagUnsetIff(token: Option<string>, reply: FetchOutcome, stringify: Json -> string)
    ensures (RemoveApp(token, reply, stringify).Failed? && RemoveApp(token, reply, stringify).authError.None?)
            <==> HasToken(token) && reply.Threw?
  {
  }

  /** The error payload's message is its `data.message`, or the serialised `data` when that is falsy. */
  lemma ErrorPayloadMessage(token: Option<string>, reply: FetchOutcome, stringify: Json -> string)
    requires HasToken(token) && reply.Responded? && Ok(reply.status) && IsErrorPayload(reply.parsed)
    ensures var data := ErrorData(reply.parsed.value);
            var m := Member(data, "message");
            RemoveApp(token, reply, stringify).error
              == if m.Some? && Truthy(m.value) then m.value else JStr(stringify(data))
  {
  }
}
