/**
 * The two request handlers: the order of decisions of ServeHTTP, and handleVerify with its
 * gates, the limiter and the call to Cap.
 */
module Handler {
  import opened GoTime
  import opened Bytes
  import opened Wrappers
  import opened Netip
  import opened Text
  import opened ReturnPath
  import opened Tokens
  import opened RateLimiter

  // ---------------------------------------------------------------------------------
  // handleVerify
  // ---------------------------------------------------------------------------------

  datatype VerifyBody = VerifyBody(token: string, state: string)

  /** A POST to the verify path; body is None if it is not one JSON object of the two known fields. */
  datatype VerifyRequest = VerifyRequest(jsonContentType: bool, body: Option<VerifyBody>, clientIP: Option<Addr>)

  datatype CapReply = CapAccepts | CapRejects | CapFails

  datatype Response = Response(status: int, retryAfter: Option<int>, cookie: Option<string>, returnTo: Option<Bytes>)

  function Refusal(status: int): Response {
    Response(status, None, None, None)
  }

  /** A request that has passed every check in front of the limiter. */
  datatype Ticket = Ticket(client: Addr, time: int, state: string, returnPath: Bytes)

  /** The checks in front of the limiter, in their order. */
  function Gate(cfg: Config, req: VerifyRequest, now: int): Result<Ticket, Response> {
    if !req.jsonContentType then Failure(Refusal(415))
    else if req.body.None? then Failure(Refusal(400))
    else if TrimSpace(req.body.value.token) == "" then Failure(Refusal(400))
    else if TrimSpace(req.body.value.state) == "" then Failure(Refusal(400))
    else
      match VerifyReturnState(cfg, req.body.value.state, now)
      case Failure(_) => Failure(Refusal(403))
      case Success(claims) =>
        if req.clientIP.None? then Failure(Refusal(400))
        else Success(Ticket(req.clientIP.value.Unmap(), now, req.body.value.state, claims.returnPath))
  }

  function TooMany(verdict: Verdict): Response {
    Response(429, Some(RetryAfterSeconds(verdict.RetryAfter())), None, None)
  }

  /** The answer once Cap has been asked. */
  function AfterCap(cfg: Config, ticket: Ticket, reply: CapReply): Response {
    match reply
    case CapFails => Refusal(502)
    case CapRejects => Refusal(403)
    case CapAccepts =>
      match AllowCookieValue(cfg, ticket.time)
      case Failure(_) => Refusal(500)
      case Success(value) => Response(200, None, Some(value), Some(SafeReturnPathFrom(ticket.returnPath)))
  }

  /** One request handled without interruption: its answer, the table it leaves, and whether Cap was asked. */
  function Handle(cfg: Config, table: Table, req: VerifyRequest, now: int, reply: CapReply): (Response, Table, bool) {
    match Gate(cfg, req, now)
    case Failure(response) => (response, table, false)
    case Success(ticket) =>
      var out := Attempt(table, ticket.client, now);
      if out.verdict.Admitted? then (AfterCap(cfg, ticket, reply), out.table, true)
      else (TooMany(out.verdict), out.table, false)
  }

  // ---------------------------------------------------------------------------------
  // The answer, without the order of the checks
  // ---------------------------------------------------------------------------------

  /** JSON with both fields filled in. */
  ghost predicate Complete(req: VerifyRequest) {
    && req.jsonContentType && req.body.Some?
    && TrimSpace(req.body.value.token) != "" && TrimSpace(req.body.value.state) != ""
  }

  ghost predicate StateAccepted(cfg: Config, req: VerifyRequest, now: int) {
    Complete(req) && VerifyReturnState(cfg, req.body.value.state, now).Success?
  }

  /** Nothing is wrong with the request itself; what is left to ask is the limiter, and then Cap. */
  ghost predicate Sound(cfg: Config, req: VerifyRequest, now: int) {
    StateAccepted(cfg, req, now) && req.clientIP.Some?
  }

  ghost predicate Admits(table: Table, req: VerifyRequest, now: int) {
    req.clientIP.Some? && Attempt(table, req.clientIP.value.Unmap(), now).verdict.Admitted?
  }

  ghost predicate StatusTable(cfg: Config, table: Table, req: VerifyRequest, now: int, reply: CapReply, status: int) {
    var passed := Sound(cfg, req, now) && Admits(table, req, now);
    && (status == 415 <==> !req.jsonContentType)
    && (status == 400 <==>
          (req.jsonContentType && !Complete(req)) || (StateAccepted(cfg, req, now) && req.clientIP.None?))
    && (status == 403 <==> (Complete(req) && !StateAccepted(cfg, req, now)) || (passed && reply == CapRejects))
    && (status == 429 <==> Sound(cfg, req, now) && !Admits(table, req, now))
    && (status == 502 <==> passed && reply == CapFails)
    && (status == 500 <==> passed && reply == CapAccepts && AllowCookieValue(cfg, now).Failure?)
    && (status == 200 <==> passed && reply == CapAccepts && AllowCookieValue(cfg, now).Success?)
  }

  /** The wait a refusal announces: the least whole seconds that cover the delay, 3 at a full table. */
  ghost predicate Announces(verdict: Verdict, retryAfter: Option<int>) {
    && (verdict.Admitted? ==> retryAfter == None)
    && (verdict.TableFull? ==> retryAfter == Some(3))
    && (verdict.Exhausted? ==>
          retryAfter.Some? &&
          (verdict.delay <= MAX_DURATION - (NANOS_PER_SECOND - 1) ==>
             LeastCoveringSeconds(retryAfter.value, verdict.delay)))
  }

  ghost predicate HeadersTable(cfg: Config, table: Table, req: VerifyRequest, now: int, response: Response) {
    && (response.status == 429 ==>
          req.clientIP.Some? &&
          Announces(Attempt(table, req.clientIP.value.Unmap(), now).verdict, response.retryAfter))
    && (response.status != 429 ==> response.retryAfter == None)
    && (response.status == 200 ==>
          StateAccepted(cfg, req, now) &&
          var claims := VerifyReturnState(cfg, req.body.value.state, now).value;
          response.cookie.Some? && AllowCookieValue(cfg, now) == Success(response.cookie.value)
          && response.returnTo == Some(SafeReturnPathFrom(claims.returnPath)))
    && (response.status != 200 ==> response.cookie == None && response.returnTo == None)
  }

  /** What the limiter is left with: an attempt of the client's unmapped address, or nothing new. */
  ghost function TableLeft(cfg: Config, table: Table, req: VerifyRequest, now: int): Table {
    if Sound(cfg, req, now) then Attempt(table, req.clientIP.value.Unmap(), now).table else table
  }

  /** Every answer, header and effect of a verify request, each under its exact conditions. */
  lemma HandleTable(cfg: Config, table: Table, req: VerifyRequest, now: int, reply: CapReply)
    ensures var (response, after, asked) := Handle(cfg, table, req, now, reply);
            && StatusTable(cfg, table, req, now, reply, response.status)
            && HeadersTable(cfg, table, req, now, response)
            && after == TableLeft(cfg, table, req, now)
            && asked == (Sound(cfg, req, now) && Admits(table, req, now))
  {
    hide VerifyReturnState, AllowCookieValue, Attempt, TrimSpace, SafeReturnPathFrom, RetryAfterSeconds,
         LeastCoveringSeconds;
    if Sound(cfg, req, now) {
      var verdict := Attempt(table, req.clientIP.value.Unmap(), now).verdict;
      RetryAfterSecondsExact(verdict.RetryAfter());
      ThreeSeconds();
    }
  }

  lemma ThreeSeconds()
    ensures RetryAfterSeconds(REFILL) == 3
  {
  }

  class CaddyProtector {
    const cfg: Config
    const limiter: VerifyRateLimiter
    /** How often Cap was asked on behalf of each client. */
    ghost var capCalls: map<Addr, nat>

    constructor (cfg: Config)
      ensures this.cfg == cfg && limiter.Contents() == map[] && capCalls == map[] && fresh(limiter)
    {
      this.cfg := cfg;
      limiter := new VerifyRateLimiter();
      capCalls := map[];
    }

    ghost function CallsFor(client: Addr): nat
      reads this
    {
      if client in capCalls then capCalls[client] else 0
    }

    /**
     * Answers a verify request as the tables say. Cap is asked once exactly when nothing is wrong
     * with the request and the limiter admits it; a request with anything wrong leaves the
     * limiter and the count of Cap calls alone.
     */
    method HandleVerify(req: VerifyRequest, now: int, reply: CapReply) returns (response: Response)
      modifies this`capCalls, limiter
      ensures StatusTable(cfg, old(limiter.Contents()), req, now, reply, response.status)
      ensures HeadersTable(cfg, old(limiter.Contents()), req, now, response)
      ensures limiter.Contents() == TableLeft(cfg, old(limiter.Contents()), req, now)
      ensures var asked := Sound(cfg, req, now) && Admits(old(limiter.Contents()), req, now);
              if asked then
                forall client :: CallsFor(client) == old(CallsFor(client)) +
                  if client == req.clientIP.value.Unmap() then 1 else 0
              else
                capCalls == old(capCalls)
      ensures (response, limiter.Contents()) ==
              (Handle(cfg, old(limiter.Contents()), req, now, reply).0,
               Handle(cfg, old(limiter.Contents()), req, now, reply).1)
    {
      HandleTable(cfg, limiter.Contents(), req, now, reply);
      if !req.jsonContentType {
        return Refusal(415);
      }
      if req.body.None? {
        return Refusal(400);
      }
      var body := req.body.value;
      if TrimSpace(body.token) == "" {
        return Refusal(400);
      }
      if TrimSpace(body.state) == "" {
        return Refusal(400);
      }
      var claims := VerifyReturnState(cfg, body.state, now);
      if claims.Failure? {
        return Refusal(403);
      }
      if req.clientIP.None? {
        return Refusal(400);
      }
      var client := req.clientIP.value.Unmap();
      var allowed, retryAfter := limiter.AllowVerifyAttempt(client, now);
      if !allowed {
        return Response(429, Some(RetryAfterSeconds(retryAfter)), None, None);
      }
      capCalls := capCalls[client := CallsFor(client) + 1];
      match reply {
        case CapFails =>
          return Refusal(502);
        case CapRejects =>
          return Refusal(403);
        case CapAccepts =>
      }
      var returnTo := SafeReturnPath(claims.value.returnPath);
      var cookie := AllowCookieValue(cfg, now);
      if cookie.Failure? {
        return Refusal(500);
      }
      return Response(200, None, Some(cookie.value), Some(returnTo));
    }
  }

  // ---------------------------------------------------------------------------------
  // ServeHTTP
  // ---------------------------------------------------------------------------------

  /** The configured part of the decision. */
  datatype Policy = Policy(bypassAPIKey: string, whitelistCountries: set<string>, blacklistCountries: set<string>) {
    predicate HasCountryRules() {
      whitelistCountries != {} || blacklistCountries != {}
    }
  }

  /**
   * What a request shows to the decision: its header fields, what the request rules, the
   * country database and the two IP lists say about it, and the cookie it carries.
   */
  datatype HttpRequest = HttpRequest(
    isVerifyPath: bool, isPost: bool, apiKeys: seq<string>, matchesRule: bool, clientIP: Option<Addr>,
    country: Option<string>, onBlacklist: bool, onAllowlist: bool, cookie: Option<string>, originalURI: Bytes)

  datatype Decision = MethodNotAllowed | Verify | ForwardByKey | Drop | ForwardByList | ForwardByCookie | Challenge

  function LookupCountry(req: HttpRequest): Option<string> {
    if req.clientIP.None? then None else req.country
  }

  /** The checks of ServeHTTP in their order. */
  function Decide(cfg: Config, policy: Policy, req: HttpRequest, now: int): Decision {
    if req.isVerifyPath then
      if !req.isPost then MethodNotAllowed else Verify
    else if policy.bypassAPIKey != "" && |req.apiKeys| == 1 && req.apiKeys[0] == policy.bypassAPIKey then ForwardByKey
    else if req.matchesRule then Drop
    else
      var country := LookupCountry(req);
      if policy.HasCountryRules() && country.Some? && country.value in policy.blacklistCountries then Drop
      else if policy.HasCountryRules() && policy.whitelistCountries != {}
              && (country.None? || country.value !in policy.whitelistCountries) then Drop
      else if req.clientIP.Some? && req.onBlacklist then Drop
      else if req.clientIP.Some? && req.onAllowlist then ForwardByList
      else if HasValidAllowCookie(cfg, req.cookie, now) then ForwardByCookie
      else Challenge
  }

  /** The client's country is known and blacklisted, or there is a whitelist and it is not known to be on it. */
  ghost predicate CountryObjects(policy: Policy, req: HttpRequest) {
    || (req.clientIP.Some? && req.country.Some? && req.country.value in policy.blacklistCountries)
    || (policy.whitelistCountries != {}
        && !(req.clientIP.Some? && req.country.Some? && req.country.value in policy.whitelistCountries))
  }

  /** No rule, country or blacklist stands against the request. */
  ghost predicate Unobjectionable(policy: Policy, req: HttpRequest) {
    !req.matchesRule && !CountryObjects(policy, req) && !(req.clientIP.Some? && req.onBlacklist)
  }

  /** Exactly one API key, the configured one. */
  ghost predicate ShowsKey(policy: Policy, req: HttpRequest) {
    policy.bypassAPIKey != "" && req.apiKeys == [policy.bypassAPIKey]
  }

  ghost predicate Allowlisted(req: HttpRequest) {
    req.clientIP.Some? && req.onAllowlist
  }

  /**
   * The whole decision, without its order: the verify path never reaches the upstream; the one
   * right API key overrides everything else; then any objection drops the request; and of what
   * is left, allowlisted and verified clients are forwarded and all others challenged.
   */
  lemma DecisionTable(cfg: Config, policy: Policy, req: HttpRequest, now: int)
    ensures var d, key, fine := Decide(cfg, policy, req, now), ShowsKey(policy, req), Unobjectionable(policy, req);
            var verified := HasValidAllowCookie(cfg, req.cookie, now);
            && (d.Verify? <==> req.isVerifyPath && req.isPost)
            && (d.MethodNotAllowed? <==> req.isVerifyPath && !req.isPost)
            && (d.ForwardByKey? <==> !req.isVerifyPath && key)
            && (d.Drop? <==> !req.isVerifyPath && !key && !fine)
            && (d.ForwardByList? <==> !req.isVerifyPath && !key && fine && Allowlisted(req))
            && (d.ForwardByCookie? <==> !req.isVerifyPath && !key && fine && !Allowlisted(req) && verified)
            && (d.Challenge? <==> !req.isVerifyPath && !key && fine && !Allowlisted(req) && !verified)
  {
    hide HasValidAllowCookie;
    if |req.apiKeys| == 1 {
      assert req.apiKeys == [req.apiKeys[0]];
    }
  }
}
