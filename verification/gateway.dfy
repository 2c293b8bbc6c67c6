/** The `POST /slack/events` endpoint: an ordered gate in front of the event
    dispatcher. */
module Gateway {
  import opened Wrappers
  import opened Events

  /** One request header as received. */
  datatype Header = Header(name: string, value: string)

  /** The keys of the JSON body the gate reads. */
  datatype Payload = Payload(challenge: Option<string>, teamId: Option<string>)

  /** The request body: a JSON object, or anything the JSON parser or the
      `.get` calls reject. */
  datatype Body = Unparseable | Object(payload: Payload)

  datatype Request = Request(headers: seq<Header>, body: Body)

  /** The JSON content of a response the gate writes itself. */
  datatype JsonBody = ErrorBody(error: string) | ChallengeBody(challenge: string)

  /** What the endpoint does: answer with JSON, hand the request to the
      signature-checking dispatcher, or fail with an unhandled exception. */
  datatype WebhookReply = Json(status: int, body: JsonBody) | Dispatch | ServerError

  const RetryHeader := "x-slack-retry-num"
  const IgnoredRetry := "ignored_slack_retry"
  const NotAllowedSuffix := ":workspace_not_allowed"

  /** ASCII lower-casing, as header names are compared. */
  function LowerChar(c: char): char {
    if 'A' <= c <= 'Z' then (c as int + 32) as char else c
  }

  function Lower(s: string): (r: string)
    ensures |r| == |s| && forall i :: 0 <= i < |s| ==> r[i] == LowerChar(s[i])
  {
    seq(|s|, i requires 0 <= i < |s| => LowerChar(s[i]))
  }

  /** The value of the first header whose name equals `name` ignoring ASCII
      case. */
  function HeaderValue(hs: seq<Header>, name: string): (v: Option<string>)
    ensures v.None? <==> forall i :: 0 <= i < |hs| ==> Lower(hs[i].name) != name
    ensures v.Some? ==> exists i :: 0 <= i < |hs| && Lower(hs[i].name) == name && hs[i].value == v.value &&
                                   (forall k :: 0 <= k < i ==> Lower(hs[k].name) != name)
  {
    if hs == [] then None
    else if Lower(hs[0].name) == name then Some(hs[0].value)
    else
      var v := HeaderValue(hs[1..], name);
      assert forall i :: 1 <= i < |hs| ==> hs[i] == hs[1..][i - 1];
      v
  }

  predicate IsRetry(req: Request) {
    HeaderValue(req.headers, RetryHeader).Some?
  }

  /** `f"{team_id}"`: a missing team id prints as "None". */
  function TeamText(teamId: Option<string>): (t: string)
    ensures teamId.Some? ==> t == teamId.value
    ensures teamId.None? ==> t == "None"
  {
    match teamId
    case Some(t) => t
    case None => "None"
  }

  /** The workspace check: an allow-list is in force when the setting is
      non-empty, and then the team id must equal it. */
  predicate WorkspaceRejected(allowed: Option<string>, teamId: Option<string>)
    ensures WorkspaceRejected(allowed, teamId) ==> allowed.Some? && allowed.value != []
    ensures allowed.Some? && allowed.value != [] ==>
      (WorkspaceRejected(allowed, teamId) <==> teamId.None? || teamId.value != allowed.value)
  {
    Truthy(allowed) && teamId != Some(allowed.value)
  }

  /** `slack_events`, given the allow-list setting. */
  function SlackEvents(allowed: Option<string>, req: Request): (r: WebhookReply)
    ensures IsRetry(req) ==> r == Json(404, ErrorBody(IgnoredRetry))
    ensures r.ServerError? <==> !IsRetry(req) && req.body.Unparseable?
    ensures r.Json? && r.body.ChallengeBody? <==>
      !IsRetry(req) && req.body.Object? && Truthy(req.body.payload.challenge)
    ensures r.Json? && r.body.ChallengeBody? ==> r.status == 200 && Some(r.body.challenge) == req.body.payload.challenge
    ensures r.Json? && r.status == 403 <==>
      && !IsRetry(req) && req.body.Object? && !Truthy(req.body.payload.challenge)
      && WorkspaceRejected(allowed, req.body.payload.teamId)
    ensures r.Json? && r.status == 403 ==> r.body == ErrorBody(TeamText(req.body.payload.teamId) + NotAllowedSuffix)
    ensures r.Dispatch? <==>
      && !IsRetry(req) && req.body.Object? && !Truthy(req.body.payload.challenge)
      && !WorkspaceRejected(allowed, req.body.payload.teamId)
  {
    if HeaderValue(req.headers, RetryHeader).Some? then Json(404, ErrorBody(IgnoredRetry))
    else match req.body
      case Unparseable => ServerError
      case Object(data) =>
        if Truthy(data.challenge) then Json(200, ChallengeBody(data.challenge.value))
        else if Truthy(allowed) && data.teamId != Some(allowed.value) then
          Json(403, ErrorBody(TeamText(data.teamId) + NotAllowedSuffix))
        else Dispatch
  }

  /** A retried delivery is turned away before the body is looked at: the
      reply is the same whatever the body is, even one that cannot be parsed. */
  lemma RetryIgnoresBody(allowed: Option<string>, hs: seq<Header>, b1: Body, b2: Body)
    requires HeaderValue(hs, RetryHeader).Some?
    ensures SlackEvents(allowed, Request(hs, b1)) == SlackEvents(allowed, Request(hs, b2))
    ensures SlackEvents(allowed, Request(hs, b1)).Json? && SlackEvents(allowed, Request(hs, b1)).status == 404
  {
  }

  /** The URL-verification challenge is answered before the workspace check:
      the echo is the same for every allow-list and every team id. */
  lemma ChallengeBeforeWorkspace(a1: Option<string>, a2: Option<string>, hs: seq<Header>,
                                 c: string, t1: Option<string>, t2: Option<string>)
    requires HeaderValue(hs, RetryHeader).None? && c != []
    ensures SlackEvents(a1, Request(hs, Object(Payload(Some(c), t1))))
         == SlackEvents(a2, Request(hs, Object(Payload(Some(c), t2))))
         == Json(200, ChallengeBody(c))
  {
  }

  /** The retry header is recognised whatever the case of its name, and the
      first such header is the one read. */
  lemma RetryHeaderAnyCase(hs: seq<Header>, name: string, v: string, b: Body)
    requires Lower(name) == RetryHeader
    ensures HeaderValue([Header(name, v)] + hs, RetryHeader) == Some(v)
    ensures IsRetry(Request([Header(name, v)] + hs, b))
  {
  }

  /** Without an allow-list every well-formed, non-retry, non-challenge
      request is dispatched, whatever its team id. */
  lemma NoAllowListDispatchesAll(allowed: Option<string>, req: Request)
    requires !Truthy(allowed)
    requires !IsRetry(req) && req.body.Object? && !Truthy(req.body.payload.challenge)
    ensures SlackEvents(allowed, req) == Dispatch
  {
  }
}
