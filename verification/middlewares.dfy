/**
 The request guards of the task API. Each guard looks at one part of an
 incoming request and either hands the request on to the next stage
 (`Next`) or ends it with a status code and an error (`Stop`). The
 authentication guard hands on the request with the decoded token claims
 attached as its user; the role guard reads them back.
 */
module Middlewares {
  import opened Js

  /** The decoded payload of a verified token: its expiry (epoch seconds)
      and its role claim, which may hold any JSON value. */
  datatype Claims = Claims(exp: int, rol: JsValue)

  /** The parts of a request the guards read. `verb` is the HTTP method,
      `authorization` the Authorization header, `params` the route
      parameters and `user` the claims attached by `AuthMiddleware`. */
  datatype Request = Request(
    verb: string,
    authorization: Option<string>,
    body: map<string, JsValue>,
    params: map<string, string>,
    user: Option<Claims>)

  /** One tag per error response the guards send. */
  datatype Failure =
    | InvalidMethod
    | BodyRequired
    | InvalidDescription
    | InvalidCompleted
    | InvalidStatus
    | NoToken
    | InvalidToken
    | ExpiredToken
    | NotAuthenticated
    | RoleRequired

  /** How the error text is sent: as a bare string, or as a JSON object
      with an `error` or a `message` field. */
  datatype Payload = BareString | ErrorField | MessageField

  function PayloadOf(f: Failure): (r: Payload)
    ensures r == BareString <==> f in {InvalidMethod, BodyRequired}
    ensures r == ErrorField <==> f in {InvalidDescription, InvalidCompleted, InvalidStatus}
    ensures r == MessageField <==>
      f in {NoToken, InvalidToken, ExpiredToken, NotAuthenticated, RoleRequired}
  {
    match f
    case InvalidMethod => BareString
    case BodyRequired => BareString
    case InvalidDescription => ErrorField
    case InvalidCompleted => ErrorField
    case InvalidStatus => ErrorField
    case _ => MessageField
  }

  /** What a guard does with a request: call the next stage with it, or
      answer with a status code and stop. */
  datatype Outcome = Next(req: Request) | Stop(status: int, failure: Failure)

  const AllowedMethods: set<string> := {"POST", "GET", "PUT", "DELETE"}

  /** The method guard: only the four listed methods, spelled exactly so,
      go on; anything else is answered with 405. */
  function Middleware(req: Request): (r: Outcome)
    ensures r.Next? <==> req.verb in AllowedMethods
    ensures r.Next? ==> r.req == req
    ensures r.Stop? ==> r == Stop(405, InvalidMethod)
  {
    var m := req.verb;
    if m == "POST" || m == "GET" || m == "PUT" || m == "DELETE" then Next(req)
    else Stop(405, InvalidMethod)
  }

  /** Method names are compared case-sensitively. */
  lemma LowerCaseMethodRejected(req: Request)
    requires req.verb == "get"
    ensures Middleware(req) == Stop(405, InvalidMethod)
  {
  }

  /** The body guard: a body with no entries is answered with 400. */
  function ValidateBody(req: Request): (r: Outcome)
    ensures r.Stop? <==> req.body.Keys == {}
    ensures r.Next? ==> r.req == req
    ensures r.Stop? ==> r == Stop(400, BodyRequired)
  {
    if |req.body| == 0 then Stop(400, BodyRequired) else Next(req)
  }

  /** Destructuring `const { key } = obj`: a missing key reads as undefined. */
  function Field(obj: map<string, JsValue>, key: string): (r: JsValue)
    ensures r != Undefined ==> key in obj && obj[key] == r
    ensures key in obj ==> r == obj[key]
  {
    if key in obj then obj[key] else Undefined
  }

  /** The task-field validator: `description` must be a non-empty string;
      only then is `completed` looked at, which must be absent or a boolean. */
  function ValidateInfo(req: Request): (r: Outcome)
    ensures var d := Field(req.body, "description");
            r == Stop(400, InvalidDescription) <==> !(d.Str? && d.s != "")
    ensures var d, c := Field(req.body, "description"), Field(req.body, "completed");
            r == Stop(400, InvalidCompleted) <==>
              d.Str? && d.s != "" && !(c.Undefined? || c.Bool?)
    ensures var d, c := Field(req.body, "description"), Field(req.body, "completed");
            r.Next? <==> d.Str? && d.s != "" && (c.Undefined? || c.Bool?)
    ensures r.Next? ==> r.req == req
  {
    var description := Field(req.body, "description");
    var completed := Field(req.body, "completed");
    if !Truthy(description) || TypeOf(description) != "string" then
      Stop(400, InvalidDescription)
    else if TypeOf(completed) != "boolean" && completed != Undefined then
      Stop(400, InvalidCompleted)
    else
      Next(req)
  }

  /** An invalid description (missing, empty, or not a string at all) decides
      the answer whatever `completed` holds. */
  lemma DescriptionCheckedFirst(req: Request, completed: JsValue)
    requires var d := Field(req.body, "description"); !(d.Str? && d.s != "")
    ensures ValidateInfo(req.(body := req.body["completed" := completed]))
         == ValidateInfo(req)
         == Stop(400, InvalidDescription)
  {
  }

  /** The status-parameter validator: an absent or empty `status` passes,
      any other value must be "completed" or "incomplete". */
  function ValidateStatusParam(req: Request): (r: Outcome)
    ensures r.Next? <==>
      "status" !in req.params || req.params["status"] in {"", "completed", "incomplete"}
    ensures r.Next? ==> r.req == req
    ensures r.Stop? ==> r == Stop(400, InvalidStatus)
  {
    var status := if "status" in req.params then Str(req.params["status"]) else Undefined;
    if Truthy(status) && status != Str("completed") && status != Str("incomplete") then
      Stop(400, InvalidStatus)
    else
      Next(req)
  }

  /** `Math.floor(Date.now() / 1000)`: the clock in whole seconds. */
  function NowSeconds(nowMs: int): (r: int)
    ensures r * 1000 <= nowMs < r * 1000 + 1000
  {
    nowMs / 1000
  }

  /** The token a client presents: the text after "Bearer " up to the next
      space, when the header carries that prefix. */
  function BearerToken(authorization: Option<string>): (r: Option<string>)
    ensures r.Some? <==> authorization.Some? && "Bearer " <= authorization.value
  {
    match authorization
    case None => None
    case Some(h) =>
      if "Bearer " <= h then Some(TakeUntil(h[|"Bearer "|..], ' ')) else None
  }

  /** `header.split(" ")[1]` on a header that starts with "Bearer " always
      exists and is the presented token. */
  lemma SecondFieldIsBearerToken(h: string)
    requires StartsWith(h, "Bearer ")
    ensures |Split(h, ' ')| >= 2
    ensures BearerToken(Some(h)) == Some(Split(h, ' ')[1])
  {
    var t := h[|"Bearer "|..];
    assert h == "Bearer" + [' '] + t;
    SplitAfterField("Bearer", t, ' ');
    SplitHead(t, ' ');
  }

  /** The authentication guard. `verify` stands for the signature check of
      the token against `secret`, which yields the decoded claims or fails;
      `nowMs` is the clock in milliseconds. */
  function AuthMiddleware(
    req: Request, verify: (string, Option<string>) -> Option<Claims>,
    secret: Option<string>, nowMs: int): (r: Outcome)
    ensures r.Stop? ==> r.status == 401
    ensures BearerToken(req.authorization).None? ==> r == Stop(401, NoToken)
    ensures BearerToken(req.authorization).Some? ==>
      var claims := verify(BearerToken(req.authorization).value, secret);
      && (claims.None? ==> r == Stop(401, InvalidToken))
      && (claims.Some? && claims.value.exp * 1000 <= nowMs ==> r == Stop(401, ExpiredToken))
      && (claims.Some? && claims.value.exp * 1000 > nowMs ==> r == Next(req.(user := claims)))
  {
    match req.authorization
    case None => Stop(401, NoToken)
    case Some(header) =>
      if !Truthy(Str(header)) || !StartsWith(header, "Bearer ") then
        Stop(401, NoToken)
      else
        SecondFieldIsBearerToken(header);
        var token := Split(header, ' ')[1];
        match verify(token, secret)
        case None => Stop(401, InvalidToken)
        case Some(decoded) =>
          if decoded.exp <= NowSeconds(nowMs) then Stop(401, ExpiredToken)
          else Next(req.(user := Some(decoded)))
  }

  /** Without a bearer header the verifier plays no part in the answer. */
  lemma NoTokenIgnoresVerifier(
    req: Request, v1: (string, Option<string>) -> Option<Claims>,
    v2: (string, Option<string>) -> Option<Claims>, secret: Option<string>, nowMs: int)
    requires req.authorization.Some? ==> !StartsWith(req.authorization.value, "Bearer ")
    ensures AuthMiddleware(req, v1, secret, nowMs) == AuthMiddleware(req, v2, secret, nowMs)
                                                  == Stop(401, NoToken)
  {
  }

  /** Only the second space-separated field reaches the verifier: whatever
      follows the token after another space changes neither the answer nor
      the claims attached. */
  lemma TrailingFieldsIgnored(
    req: Request, verify: (string, Option<string>) -> Option<Claims>,
    secret: Option<string>, nowMs: int, token: string, tail: string)
    requires ' ' !in token
    ensures var withTail := req.(authorization := Some("Bearer " + token + " " + tail));
            var plain := req.(authorization := Some("Bearer " + token));
            var a, b := AuthMiddleware(withTail, verify, secret, nowMs),
                        AuthMiddleware(plain, verify, secret, nowMs);
            && BearerToken(withTail.authorization) == BearerToken(plain.authorization) == Some(token)
            && a.Next? == b.Next?
            && (a.Stop? ==> a == b)
            && (a.Next? ==> a.req.user == b.req.user)
  {
    var p := "Bearer ";
    var long, short := p + token + " " + tail, p + token;
    assert long[..|p|] == p && long[|p|..] == token + (" " + tail);
    assert short[..|p|] == p && short[|p|..] == token + [];
    TakeUntilField(token, " " + tail, ' ');
    TakeUntilField(token, [], ' ');
  }

  /** The scheme name is matched case-sensitively: "bearer" is answered as if
      no token had been sent. */
  lemma LowerCaseSchemeRejected(
    req: Request, verify: (string, Option<string>) -> Option<Claims>,
    secret: Option<string>, nowMs: int, token: string)
    requires req.authorization == Some("bearer " + token)
    ensures AuthMiddleware(req, verify, secret, nowMs) == Stop(401, NoToken)
  {
  }

  /** Exactly one space separates the scheme from the token: after two spaces
      the second field of the header is empty, and the empty string is what
      reaches the verifier. */
  lemma DoubleSpaceGivesEmptyToken(token: string)
    ensures BearerToken(Some("Bearer  " + token)) == Some("")
  {
  }

  /** A token whose expiry equals the current second is already expired, and
      one a second later is not. */
  lemma ExpiryBoundary(
    req: Request, verify: (string, Option<string>) -> Option<Claims>,
    secret: Option<string>, nowMs: int)
    requires BearerToken(req.authorization).Some?
    requires verify(BearerToken(req.authorization).value, secret).Some?
    ensures var c := verify(BearerToken(req.authorization).value, secret).value;
            && (c.exp == NowSeconds(nowMs) ==> AuthMiddleware(req, verify, secret, nowMs) == Stop(401, ExpiredToken))
            && (c.exp == NowSeconds(nowMs) + 1 ==> AuthMiddleware(req, verify, secret, nowMs).Next?)
  {
  }

  /** The role guard built by `roleMiddleware(roles)`: the request must carry
      a user with a truthy role (401 otherwise), and that role must be one of
      `roles` (403 otherwise). */
  function RoleMiddleware(roles: seq<JsValue>, req: Request): (r: Outcome)
    ensures r == Stop(401, NotAuthenticated) <==>
      req.user.None? || !Truthy(req.user.value.rol)
    ensures r == Stop(403, RoleRequired) <==>
      req.user.Some? && Truthy(req.user.value.rol) && req.user.value.rol !in roles
    ensures r.Next? <==>
      req.user.Some? && Truthy(req.user.value.rol) && req.user.value.rol in roles
    ensures r.Next? ==> r.req == req
  {
    if req.user.None? || !Truthy(req.user.value.rol) then
      Stop(401, NotAuthenticated)
    else if !Includes(roles, req.user.value.rol) then
      Stop(403, RoleRequired)
    else
      Next(req)
  }

  /** An empty role is refused as unauthenticated whatever the permitted
      roles are, even when the empty string is among them: the presence check
      runs first. */
  lemma EmptyRoleNeverPasses(roles: seq<JsValue>, req: Request, c: Claims)
    requires req.user == Some(c) && c.rol == Str("")
    ensures RoleMiddleware(roles, req) == Stop(401, NotAuthenticated)
  {
  }

  /** Authentication followed by the role guard: once the token is accepted,
      the role guard answers from the token's role claim alone. */
  lemma AuthThenRole(
    roles: seq<JsValue>, req: Request, verify: (string, Option<string>) -> Option<Claims>,
    secret: Option<string>, nowMs: int)
    requires AuthMiddleware(req, verify, secret, nowMs).Next?
    ensures var authed := AuthMiddleware(req, verify, secret, nowMs).req;
            var rol := verify(BearerToken(req.authorization).value, secret).value.rol;
            RoleMiddleware(roles, authed) ==
              if !Truthy(rol) then Stop(401, NotAuthenticated)
              else if rol in roles then Next(authed)
              else Stop(403, RoleRequired)
  {
  }
}
